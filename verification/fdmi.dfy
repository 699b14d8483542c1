/**
 FDMI registration requests: attribute blocks (type, length, value) written one behind the other into a
 shared, zeroed command buffer.  Offsets are in bytes from the start of the command's arguments.
 */
module Fdmi {
  import opened Words

  const WWN_SIZE := 8
  const HBA_START := 2 * WWN_SIZE + 4 + 4
  const PORT_START := WWN_SIZE + 4
  const HBA_ATTR_COUNT := 9
  const HBA_V2_ATTR_COUNT := 17
  const PORT_ATTR_COUNT := 6
  const PORT_V2_ATTR_COUNT := 16
  const ENTRY_MAX := 4 + 256            // the largest attribute structure
  const BUFFER := HBA_START + HBA_V2_ATTR_COUNT * ENTRY_MAX

  // ---------- the format ----------

  datatype Attr = Attr(code: u16, value: seq<u8>)

  predicate Proper(a: Attr) { |a.value| % 4 == 0 && 4 + |a.value| < TWO16 }

  predicate AllProper(attrs: seq<Attr>) { forall i | 0 <= i < |attrs| :: Proper(attrs[i]) }

  function Be16(x: u16): seq<u8> { [x / TWO8, x % TWO8] }

  function Be32(x: u32): seq<u8> {
    [x / TWO8 / TWO8 / TWO8, x / TWO8 / TWO8 % TWO8, x / TWO8 % TWO8, x % TWO8]
  }

  // The number a string of bytes writes down, the first byte counting most.
  function Number(bytes: seq<u8>): nat {
    if bytes == [] then 0 else Number(bytes[..|bytes| - 1]) * 0x100 + bytes[|bytes| - 1]
  }

  lemma NumberOf2(a: u8, b: u8)
    ensures Number([a, b]) == a * 0x100 + b
  {
    assert [a, b][..1] == [a] && [a][..0] == [];
    assert Number([a]) == a;
  }

  lemma NumberOf4(a: u8, b: u8, c: u8, d: u8)
    ensures Number([a, b, c, d]) == a * 0x100_0000 + b * 0x1_0000 + c * 0x100 + d
  {
    assert [a, b, c, d][..3] == [a, b, c] && [a, b, c][..2] == [a, b];
    NumberOf2(a, b);
  }

  /** Fields of two and four bytes read back as the number put in. */
  lemma FieldsReadBack(x: u32, y: u16)
    ensures |Be32(x)| == 4 && Number(Be32(x)) == x
    ensures |Be16(y)| == 2 && Number(Be16(y)) == y
  {
    NumberOf4(Be32(x)[0], Be32(x)[1], Be32(x)[2], Be32(x)[3]);
    NumberOf2(Be16(y)[0], Be16(y)[1]);
  }

  function Encode(a: Attr): seq<u8>
    requires Proper(a)
  {
    Be16(a.code) + Be16(4 + |a.value|) + a.value
  }

  function EncodeAll(attrs: seq<Attr>): seq<u8>
    requires AllProper(attrs)
  {
    if attrs == [] then [] else EncodeAll(attrs[..|attrs| - 1]) + Encode(attrs[|attrs| - 1])
  }

  // A reader takes n attributes, each by its length field, and must end at the end of the block.
  function Walk(bytes: seq<u8>, n: nat): Option<seq<Attr>> {
    if n == 0 then if bytes == [] then Some([]) else None
    else if |bytes| < 4 then None
    else
      var len := TWO8 * bytes[2] + bytes[3];
      if len < 4 || len > |bytes| then None
      else
        match Walk(bytes[len..], n - 1)
        case None => None
        case Some(rest) => Some([Attr(TWO8 * bytes[0] + bytes[1], bytes[4..len])] + rest)
  }

  lemma EncodeReads(a: Attr, tail: seq<u8>)
    requires Proper(a)
    ensures var bytes := Encode(a) + tail;
            && |bytes| >= 4 && TWO8 * bytes[0] + bytes[1] == a.code && TWO8 * bytes[2] + bytes[3] == 4 + |a.value|
            && bytes[4..4 + |a.value|] == a.value && bytes[4 + |a.value|..] == tail
  {
  }

  lemma {:induction false} EncodeFront(a: Attr, rest: seq<Attr>)
    requires Proper(a) && AllProper(rest)
    ensures AllProper([a] + rest) && EncodeAll([a] + rest) == Encode(a) + EncodeAll(rest)
  {
    if rest == [] {
      assert [a] + rest == [a] && [a][..0] == [];
      assert EncodeAll([a]) == [] + Encode(a);
      assert Encode(a) + [] == [] + Encode(a);
    } else {
      var front, last := rest[..|rest| - 1], rest[|rest| - 1];
      EncodeFront(a, front);
      assert ([a] + rest)[..|rest|] == [a] + front;
      assert (Encode(a) + EncodeAll(front)) + Encode(last) == Encode(a) + (EncodeAll(front) + Encode(last));
    }
  }

  /** Walking a block by its length fields gives back every attribute, and ends where the block ends. */
  lemma {:induction false} WalkReadsBlock(attrs: seq<Attr>)
    requires AllProper(attrs)
    ensures Walk(EncodeAll(attrs), |attrs|) == Some(attrs)
  {
    if attrs != [] {
      var a, rest := attrs[0], attrs[1..];
      assert attrs == [a] + rest;
      EncodeFront(a, rest);
      EncodeReads(a, EncodeAll(rest));
      WalkReadsBlock(rest);
    }
  }

  /** Attribute k of a block begins at a multiple of four from its start, behind the attributes before it. */
  lemma {:induction false} AttributeStandsAt(attrs: seq<Attr>, k: nat)
    requires AllProper(attrs) && k < |attrs|
    ensures var at := |EncodeAll(attrs[..k])|;
            && at % 4 == 0 && at + 4 + |attrs[k].value| <= |EncodeAll(attrs)|
            && EncodeAll(attrs)[at..at + 4 + |attrs[k].value|] == Encode(attrs[k])
  {
    var front := attrs[..|attrs| - 1];
    if k == |attrs| - 1 {
      LengthIsWhole(front);
    } else {
      AttributeStandsAt(front, k);
      assert front[..k] == attrs[..k];
    }
  }

  lemma {:induction false} LengthIsWhole(attrs: seq<Attr>)
    requires AllProper(attrs)
    ensures |EncodeAll(attrs)| % 4 == 0
  {
    if attrs != [] {
      LengthIsWhole(attrs[..|attrs| - 1]);
      WholeAdds(|EncodeAll(attrs[..|attrs| - 1])|, |attrs[|attrs| - 1].value|);
    }
  }

  lemma WholeAdds(a: nat, b: nat)
    requires a % 4 == 0 && b % 4 == 0
    ensures (a + (4 + b)) % 4 == 0
  {
  }

  // ---------- strings ----------

  predicate IsText(t: seq<u8>) { forall i | 0 <= i < |t| :: t[i] != 0 }

  function Zeros(n: nat): seq<u8> { seq(n, _ => 0) }

  // What a bounded print keeps of a string, and its field: at least one zero, up to the next multiple of four.
  function Cut(t: seq<u8>, cap: nat): seq<u8>
    requires cap > 0
  {
    if |t| < cap then t else t[..cap - 1]
  }

  function Padded(t: seq<u8>): seq<u8> { t + Zeros(4 - |t| % 4) }

  function TextOf(value: seq<u8>): seq<u8> {
    if value == [] || value[0] == 0 then [] else [value[0]] + TextOf(value[1..])
  }

  /** A string field keeps a terminating zero, and reading up to the first zero gives the string back. */
  lemma {:induction false} PaddedReads(t: seq<u8>)
    requires IsText(t)
    ensures |Padded(t)| % 4 == 0 && |t| < |Padded(t)| <= |t| + 4
    ensures Padded(t)[..|t|] == t && forall i | |t| <= i < |Padded(t)| :: Padded(t)[i] == 0
    ensures TextOf(Padded(t)) == t
  {
    PaddingIsWhole(|t|);
    TextStops(t, Zeros(4 - |t| % 4));
  }

  lemma PaddingIsWhole(n: nat)
    ensures (n + (4 - n % 4)) % 4 == 0
  {
  }

  lemma {:induction false} TextStops(t: seq<u8>, tail: seq<u8>)
    requires IsText(t) && tail != [] && tail[0] == 0
    ensures TextOf(t + tail) == t
  {
    if t == [] {
      assert t + tail == tail;
    } else {
      assert (t + tail)[1..] == t[1..] + tail;
      TextStops(t[1..], tail);
    }
  }

  // ---------- what is registered ----------

  // The values the driver looks up; strings come before they are cut to their fields.
  datatype Config = Config(
    nodeName: seq<u8>, portName: seq<u8>, fabricName: seq<u8>,
    manufacturer: seq<u8>, serialNum: seq<u8>, model: seq<u8>, modelDesc: seq<u8>, hwVersion: seq<u8>,
    driverVersion: seq<u8>, oromVersion: seq<u8>, fwVersion: seq<u8>, osVersion: seq<u8>,
    symName: seq<u8>, biosName: seq<u8>, vendor: seq<u8>, osDevName: seq<u8>, hostName: seq<u8>,
    payload: u16, supSpeed: u32, curSpeed: u32, portId: u32, portType: u32)

  predicate Registrable(c: Config) { |c.nodeName| == |c.portName| == |c.fabricName| == WWN_SIZE }

  function Text(code: u16, t: seq<u8>, cap: nat): Attr
    requires cap > 0
  {
    Attr(code, Padded(Cut(t, cap)))
  }

  /** A registered string reads back as what its field could keep of it. */
  lemma TextReads(code: u16, t: seq<u8>, cap: nat)
    requires IsText(t) && cap > 0
    ensures TextOf(Text(code, t, cap).value) == if |t| < cap then t else t[..cap - 1]
  {
    PaddedReads(Cut(t, cap));
  }

  // A field of the driver's lists: a value of fixed length, a 32-byte bitmap of which only the first bytes are
  // written, or a string printed into a field of cap bytes.
  datatype Field =
    | Fixed(code: u16, value: seq<u8>)
    | Bits(code: u16, first: seq<u8>)
    | Str(code: u16, t: seq<u8>, cap: nat)

  predicate Writable(f: Field) {
    match f
    case Fixed(_, value) => |value| == 4 || |value| == WWN_SIZE
    case Bits(_, first) => |first| <= 32
    case Str(_, _, cap) => 0 < cap <= 256 && cap % 4 == 0
  }

  function AttrOf(f: Field): Attr
    requires Writable(f)
  {
    match f
    case Fixed(code, value) => Attr(code, value)
    case Bits(code, first) => Attr(code, first + Zeros(32 - |first|))
    case Str(code, t, cap) => Text(code, t, cap)
  }

  predicate AllWritable(fs: seq<Field>) { forall i | 0 <= i < |fs| :: Writable(fs[i]) }

  function AttrsOf(fs: seq<Field>): (attrs: seq<Attr>)
    requires AllWritable(fs)
    ensures |attrs| == |fs| && forall i | 0 <= i < |fs| :: attrs[i] == AttrOf(fs[i])
  {
    seq(|fs|, i requires 0 <= i < |fs| => AttrOf(fs[i]))
  }

  // Adapter attributes; the second version has narrower fields and eight more attributes.
  function HbaFields(c: Config, v2: bool): seq<Field> {
    [Fixed(0x1, c.nodeName), Str(0x2, c.manufacturer, if v2 then 32 else 64), Str(0x3, c.serialNum, 32),
     Str(0x4, c.model, 16), Str(0x5, c.modelDesc, 80), Str(0x6, c.hwVersion, if v2 then 16 else 32),
     Str(0x7, c.driverVersion, 32), Str(0x8, c.oromVersion, 16), Str(0x9, c.fwVersion, 32)]
    + if !v2 then []
      else [Str(0xa, c.osVersion, 128), Fixed(0xb, Be32(c.payload)), Str(0xc, c.symName, 256),
            Fixed(0xd, Be32(0x1077)), Fixed(0xe, Be32(1)), Fixed(0xf, c.fabricName), Str(0x10, c.biosName, 32),
            Str(0xe0, c.vendor, 8)]
  }

  // Port attributes; FCP is the third byte of the FC-4 type bitmaps.
  function PortFields(c: Config, v2: bool): seq<Field> {
    [Bits(0x1, [0, 0, 1]), Fixed(0x2, Be32(c.supSpeed)), Fixed(0x3, Be32(c.curSpeed)), Fixed(0x4, Be32(c.payload)),
     Str(0x5, c.osDevName, 32), Str(0x6, c.hostName, 32)]
    + if !v2 then []
      else [Fixed(0x7, c.nodeName), Fixed(0x8, c.portName), Str(0x9, c.symName, 128), Fixed(0xa, Be32(c.portType)),
            Fixed(0xb, Be32(0x08)), Fixed(0xc, c.fabricName), Bits(0xd, [0, 0, 1, 0]), Fixed(0x101, Be32(1)),
            Fixed(0x102, Be32(1)), Fixed(0x103, Be32(c.portId))]
  }

  lemma FieldsWritable(c: Config, v2: bool)
    requires Registrable(c)
    ensures AllWritable(HbaFields(c, v2)) && AllWritable(PortFields(c, v2))
  {
  }

  // ---------- the shared buffer ----------

  lemma StoredIs(code: u16, bytes: seq<u8>, pad: nat, b: seq<u8>, size: nat)
    requires Proper(Attr(code, bytes + Zeros(pad))) && size + 4 + |bytes| + pad <= |b|
    requires var head := Be16(code) + Be16(4 + |bytes| + pad) + bytes;
             forall i | 0 <= i < |head| :: b[size + i] == head[i]
    requires forall i | size + 4 + |bytes| <= i < |b| :: b[i] == 0
    ensures b[size..size + 4 + |bytes| + pad] == Encode(Attr(code, bytes + Zeros(pad)))
  {
    var head := Be16(code) + Be16(4 + |bytes| + pad) + bytes;
    assert |head| == 4 + |bytes|;
    assert Encode(Attr(code, bytes + Zeros(pad))) == head + Zeros(pad);
    assert b[size..size + 4 + |bytes|] == head;
    var mid := size + 4 + |bytes|;
    assert b[size..mid + pad] == b[size..mid] + b[mid..mid + pad];
  }

  lemma BlockGrows(b: seq<u8>, b': seq<u8>, args: seq<u8>, attrs: seq<Attr>, size: nat, a: Attr)
    requires AllProper(attrs) && Proper(a) && size <= |b| == |b'| && size + 4 + |a.value| <= |b|
    requires b[..size] == args + EncodeAll(attrs) && b'[..size] == b[..size]
    requires b'[size..size + 4 + |a.value|] == Encode(a)
    ensures AllProper(attrs + [a]) && b'[..size + 4 + |a.value|] == args + EncodeAll(attrs + [a])
  {
    assert (attrs + [a])[..|attrs|] == attrs;
    assert b'[..size + 4 + |a.value|] == b'[..size] + b'[size..size + 4 + |a.value|];
    assert (args + EncodeAll(attrs)) + Encode(a) == args + (EncodeAll(attrs) + Encode(a));
  }

  class Request {
    const req: array<u8>
    var size: nat                     // bytes written so far
    var iocbBytes: nat                // the command size told to the adapter
    ghost var args: seq<u8>           // what stands before the attributes
    ghost var attrs: seq<Attr>        // the attributes written so far

    constructor ()
      ensures req.Length == BUFFER && fresh(req)
    {
      req := new u8[BUFFER](_ => 0);
      size, iocbBytes, args, attrs := 0, 0, [], [];
    }

    // The command so far, with nothing but zeros behind it.
    ghost predicate Block()
      reads this, req
    {
      && |args| <= size <= req.Length && AllProper(attrs)
      && req[..size] == args + EncodeAll(attrs)
      && forall i | size <= i < req.Length :: req[i] == 0
    }

    ghost predicate Room(n: nat)
      reads `size
    {
      size + n * ENTRY_MAX <= req.Length
    }

    method Write(head: seq<u8>)
      requires size + |head| <= req.Length
      modifies req
      ensures req[..size] == old(req[..size])
      ensures forall i | 0 <= i < |head| :: req[size + i] == head[i]
      ensures forall i | size + |head| <= i < req.Length :: req[i] == old(req[i])
    {
      forall i | 0 <= i < |head| {
        req[size + i] := head[i];
      }
    }

    // An attribute written at size, the last pad bytes of its value being zeros already there.
    method Store(code: u16, bytes: seq<u8>, pad: nat)
      requires Block() && Proper(Attr(code, bytes + Zeros(pad)))
      requires size + 4 + |bytes| + pad <= req.Length
      modifies req, `size, `attrs
      ensures Block() && attrs == old(attrs) + [Attr(code, bytes + Zeros(pad))]
      ensures size == old(size) + 4 + |bytes| + pad
    {
      ghost var a := Attr(code, bytes + Zeros(pad));
      ghost var end := size + 4 + |bytes| + pad;
      var head := Be16(code) + Be16(4 + |bytes| + pad) + bytes;
      Write(head);
      StoredIs(code, bytes, pad, req[..], size);
      BlockGrows(old(req[..]), req[..], args, attrs, size, a);
      size := size + 4 + |bytes| + pad;
      attrs := attrs + [a];
    }

    /** A string: print it into its field, and give it its own length rounded up past the terminating zero. */
    method PutText(code: u16, t: seq<u8>, cap: nat)
      requires Block() && Room(1) && 0 < cap <= 256 && cap % 4 == 0
      modifies req, `size, `attrs
      ensures Block() && attrs == old(attrs) + [Text(code, t, cap)] && size <= old(size) + ENTRY_MAX
    {
      var s := Cut(t, cap);
      var alen := |s| + (4 - |s| % 4);
      TextFits(|s|, cap);
      assert s + [0] + Zeros(alen - |s| - 1) == Padded(s);
      Store(code, s + [0], alen - |s| - 1);
    }

    method PutField(f: Field)
      requires Block() && Room(1) && Writable(f)
      modifies req, `size, `attrs
      ensures Block() && attrs == old(attrs) + [AttrOf(f)] && size <= old(size) + ENTRY_MAX
    {
      match f
      case Fixed(code, value) =>
        assert value + Zeros(0) == value;
        Store(code, value, 0);
      case Bits(code, first) => Store(code, first, 32 - |first|);
      case Str(code, t, cap) => PutText(code, t, cap);
    }

    method PutFields(fs: seq<Field>)
      requires Block() && Room(|fs|) && AllWritable(fs)
      modifies req, `size, `attrs
      ensures Block() && attrs == old(attrs) + AttrsOf(fs)
    {
      assert attrs == attrs + AttrsOf([]);
      for k := 0 to |fs|
        invariant Block() && size <= old(size) + k * ENTRY_MAX && attrs == old(attrs) + AttrsOf(fs[..k])
      {
        PutField(fs[k]);
        assert AttrsOf(fs[..k]) + [AttrOf(fs[k])] == AttrsOf(fs[..k + 1]);
        assert old(attrs) + (AttrsOf(fs[..k]) + [AttrOf(fs[k])]) == old(attrs) + AttrsOf(fs[..k]) + [AttrOf(fs[k])];
      }
      assert fs[..|fs|] == fs;
    }

    /** The buffer is zeroed and the arguments before the attributes are written, the count last. */
    method Prepare(bytes: seq<u8>)
      requires |bytes| <= req.Length
      modifies req, `size, `args, `attrs
      ensures Block() && size == |bytes| && args == bytes && attrs == []
    {
      forall i | 0 <= i < req.Length {
        req[i] := if i < |bytes| then bytes[i] else 0;
      }
      size, args, attrs := |bytes|, bytes, [];
      assert args + [] == args;
    }

    // A finished command: its arguments, then exactly the wanted attributes, up to the size told to the adapter.
    ghost predicate Carries(bytes: seq<u8>, want: seq<Attr>)
      reads this, req
    {
      && |bytes| <= size <= req.Length && req[..|bytes|] == bytes
      && Walk(req[|bytes|..size], |want|) == Some(want)
      && iocbBytes == size + 16
    }

    method Finish()
      requires Block()
      modifies `iocbBytes
      ensures Carries(args, attrs)
    {
      iocbBytes := size + 16;
      assert req[..size][..|args|] == req[..|args|];
      assert req[|args|..size] == EncodeAll(attrs);
      WalkReadsBlock(attrs);
    }

    /**
     Registration of the adapter, either form: the declared count of attributes, in order, ending exactly
     at the size told to the adapter.
     */
    method Rhba(c: Config, v2: bool)
      requires Registrable(c) && req.Length == BUFFER
      modifies req, `size, `args, `attrs, `iocbBytes
      ensures Carries(HbaArgs(c, v2), HbaAttrs(c, v2))
    {
      FieldsWritable(c, v2);
      Prepare(HbaArgs(c, v2));
      PutFields(HbaFields(c, v2));
      assert [] + HbaAttrs(c, v2) == HbaAttrs(c, v2);
      Finish();
    }

    /** Registration of the port, either form. */
    method Rpa(c: Config, v2: bool)
      requires Registrable(c) && req.Length == BUFFER
      modifies req, `size, `args, `attrs, `iocbBytes
      ensures Carries(PortArgs(c, v2), PortAttrs(c, v2))
    {
      FieldsWritable(c, v2);
      Prepare(PortArgs(c, v2));
      PutFields(PortFields(c, v2));
      assert [] + PortAttrs(c, v2) == PortAttrs(c, v2);
      Finish();
    }
  }

  // The arguments in front of the attributes; the attribute count is their last word.
  function HbaArgs(c: Config, v2: bool): seq<u8> {
    c.portName + Be32(1) + c.portName + Be32(if v2 then HBA_V2_ATTR_COUNT else HBA_ATTR_COUNT)
  }

  function PortArgs(c: Config, v2: bool): seq<u8> {
    c.portName + Be32(if v2 then PORT_V2_ATTR_COUNT else PORT_ATTR_COUNT)
  }

  function HbaAttrs(c: Config, v2: bool): seq<Attr>
    requires Registrable(c)
  {
    FieldsWritable(c, v2);
    AttrsOf(HbaFields(c, v2))
  }

  function PortAttrs(c: Config, v2: bool): seq<Attr>
    requires Registrable(c)
  {
    FieldsWritable(c, v2);
    AttrsOf(PortFields(c, v2))
  }

  /**
   The arguments read back: port name, for an adapter one port entry and its name again, and as the last word
   the number of attributes that follow, in all four forms.
   */
  lemma CountsAreDeclared(c: Config, v2: bool)
    requires Registrable(c)
    ensures var a := HbaArgs(c, v2);
            && |a| == 24 && a[..8] == c.portName && Number(a[8..12]) == 1 && a[12..20] == c.portName
            && Number(a[20..]) == |HbaAttrs(c, v2)|
    ensures var a := PortArgs(c, v2);
            && |a| == 12 && a[..8] == c.portName && Number(a[8..]) == |PortAttrs(c, v2)|
  {
    var a, b := HbaArgs(c, v2), PortArgs(c, v2);
    var n, m := if v2 then HBA_V2_ATTR_COUNT else HBA_ATTR_COUNT, if v2 then PORT_V2_ATTR_COUNT else PORT_ATTR_COUNT;
    FieldsReadBack(1, 0);
    FieldsReadBack(n, 0);
    FieldsReadBack(m, 0);
    assert a[8..12] == Be32(1) && a[12..20] == c.portName && a[20..] == Be32(n) && b[8..] == Be32(m);
  }

  /** The attribute codes: one after the other from one on, then the vendor's and the port's own. */
  lemma CodesAre(c: Config, v2: bool)
    requires Registrable(c)
    ensures |HbaAttrs(c, v2)| == (if v2 then 17 else 9) && |PortAttrs(c, v2)| == (if v2 then 16 else 6)
    ensures forall i | 0 <= i < |HbaAttrs(c, v2)| :: HbaAttrs(c, v2)[i].code == if i < 16 then i + 1 else 0xe0
    ensures forall i | 0 <= i < |PortAttrs(c, v2)| ::
              PortAttrs(c, v2)[i].code == if i < 13 then i + 1 else 0x101 + (i - 13)
  {
  }

  ghost predicate AllText(c: Config) {
    && IsText(c.manufacturer) && IsText(c.serialNum) && IsText(c.model) && IsText(c.modelDesc) && IsText(c.hwVersion)
    && IsText(c.driverVersion) && IsText(c.oromVersion) && IsText(c.fwVersion) && IsText(c.osVersion)
    && IsText(c.symName) && IsText(c.biosName) && IsText(c.vendor) && IsText(c.osDevName) && IsText(c.hostName)
  }

  // The attribute reads back as what cap bytes keep of the string t.
  ghost predicate Tells(a: Attr, t: seq<u8>, cap: nat)
    requires cap > 0
  {
    TextOf(a.value) == if |t| < cap then t else t[..cap - 1]
  }

  // The attribute reads back as the word x.
  ghost predicate Says(a: Attr, x: nat) { |a.value| == 4 && Number(a.value) == x }

  ghost predicate OnlyFcp(bitmap: seq<u8>) {
    |bitmap| == 32 && forall i | 0 <= i < 32 :: bitmap[i] == if i == 2 then 1 else 0
  }

  lemma Told(fs: seq<Field>, i: nat, code: u16, t: seq<u8>, cap: nat)
    requires AllWritable(fs) && i < |fs| && fs[i] == Str(code, t, cap) && IsText(t) && cap > 0
    ensures Tells(AttrsOf(fs)[i], t, cap)
  {
    TextReads(code, t, cap);
  }

  lemma Said(fs: seq<Field>, i: nat, code: u16, x: u32)
    requires AllWritable(fs) && i < |fs| && fs[i] == Fixed(code, Be32(x))
    ensures Says(AttrsOf(fs)[i], x)
  {
    FieldsReadBack(x, 0);
  }

  /** What the fabric reads of the adapter, names first; code k is at place k - 1. */
  lemma HbaReadsBack(c: Config, v2: bool)
    requires Registrable(c) && AllText(c)
    ensures var a := HbaAttrs(c, v2);
            && |a| >= 9 && a[0].value == c.nodeName && Tells(a[1], c.manufacturer, if v2 then 32 else 64)
            && Tells(a[2], c.serialNum, 32) && Tells(a[3], c.model, 16) && Tells(a[4], c.modelDesc, 80)
  {
    var fs := HbaFields(c, v2);
    FieldsWritable(c, v2);
    Told(fs, 1, 0x2, c.manufacturer, if v2 then 32 else 64);
    Told(fs, 2, 0x3, c.serialNum, 32);
    Told(fs, 3, 0x4, c.model, 16);
    Told(fs, 4, 0x5, c.modelDesc, 80);
  }

  lemma HbaVersionsReadBack(c: Config, v2: bool)
    requires Registrable(c) && AllText(c)
    ensures var a := HbaAttrs(c, v2);
            && |a| >= 9 && Tells(a[5], c.hwVersion, if v2 then 16 else 32) && Tells(a[6], c.driverVersion, 32)
            && Tells(a[7], c.oromVersion, 16) && Tells(a[8], c.fwVersion, 32)
  {
    var fs := HbaFields(c, v2);
    FieldsWritable(c, v2);
    Told(fs, 5, 0x6, c.hwVersion, if v2 then 16 else 32);
    Told(fs, 6, 0x7, c.driverVersion, 32);
    Told(fs, 7, 0x8, c.oromVersion, 16);
    Told(fs, 8, 0x9, c.fwVersion, 32);
  }

  /** And what the second form adds: system, frame size, vendor and number of ports, fabric and boot names. */
  lemma HbaV2ReadsBack(c: Config)
    requires Registrable(c) && AllText(c)
    ensures var a := HbaAttrs(c, true);
            && |a| == 17 && Tells(a[9], c.osVersion, 128) && Says(a[10], c.payload)
            && Tells(a[11], c.symName, 256) && Says(a[12], 0x1077) && Says(a[13], 1)
            && a[14].value == c.fabricName && Tells(a[15], c.biosName, 32) && Tells(a[16], c.vendor, 8)
  {
    var fs := HbaFields(c, true);
    FieldsWritable(c, true);
    Told(fs, 9, 0xa, c.osVersion, 128);
    Said(fs, 10, 0xb, c.payload);
    Told(fs, 11, 0xc, c.symName, 256);
    Said(fs, 12, 0xd, 0x1077);
    Said(fs, 13, 0xe, 1);
    Told(fs, 15, 0x10, c.biosName, 32);
    Told(fs, 16, 0xe0, c.vendor, 8);
  }

  /** What the fabric reads of the port; only FCP is set in the protocol bitmaps. */
  lemma PortReadsBack(c: Config, v2: bool)
    requires Registrable(c) && AllText(c)
    ensures var a := PortAttrs(c, v2);
            && |a| >= 6 && OnlyFcp(a[0].value) && Says(a[1], c.supSpeed) && Says(a[2], c.curSpeed)
            && Says(a[3], c.payload) && Tells(a[4], c.osDevName, 32) && Tells(a[5], c.hostName, 32)
  {
    var fs := PortFields(c, v2);
    FieldsWritable(c, v2);
    Said(fs, 1, 0x2, c.supSpeed);
    Said(fs, 2, 0x3, c.curSpeed);
    Said(fs, 3, 0x4, c.payload);
    Told(fs, 4, 0x5, c.osDevName, 32);
    Told(fs, 5, 0x6, c.hostName, 32);
  }

  lemma PortV2ReadsBack(c: Config)
    requires Registrable(c) && AllText(c)
    ensures var a := PortAttrs(c, true);
            && |a| == 16 && a[6].value == c.nodeName && a[7].value == c.portName && Tells(a[8], c.symName, 128)
            && Says(a[9], c.portType) && Says(a[10], 8) && a[11].value == c.fabricName && OnlyFcp(a[12].value)
            && Says(a[13], 1) && Says(a[14], 1) && Says(a[15], c.portId)
  {
    var fs := PortFields(c, true);
    FieldsWritable(c, true);
    Told(fs, 8, 0x9, c.symName, 128);
    Said(fs, 9, 0xa, c.portType);
    Said(fs, 10, 0xb, 8);
    Said(fs, 13, 0x101, 1);
    Said(fs, 14, 0x102, 1);
    Said(fs, 15, 0x103, c.portId);
  }

  lemma TextFits(n: nat, cap: nat)
    requires n < cap && cap % 4 == 0
    ensures n < n + (4 - n % 4) <= cap && (n + (4 - n % 4)) % 4 == 0
  {
  }
}
