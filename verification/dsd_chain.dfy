/**
 Chained descriptor lists: each list is one 512-byte pool element holding at most 37 descriptors
 and one more slot, which links to the next list or ends the chain.  A link carries the bus address
 of the next list and its length in bytes, the extra slot included.
 */
module DsdChain {
  import opened Words
  import opened IocbFormat
  import opened DifBlocks

  const PER_LIST := 37
  const DSD_SIZE := 12
  const POOL_SIZE := 512
  const NULL := Dsd(0, 0)

  // What the elements of the DMA pool hold, by bus address, as far as they have been written.
  type Pool = map<nat, seq<Dsd>>

  // ---------- the reader ----------

  datatype Chain = Chain(lists: seq<nat>, descs: seq<Dsd>)

  // Follow a chain from a link: the length says how many slots to read, the last one is the next link.
  function Follow(pool: Pool, link: Dsd): Option<Chain>
    decreases |pool|
  {
    if link.len == 0 then Some(Chain([], []))
    else if link.addr !in pool || link.len % DSD_SIZE != 0 then None
    else
      var list, n := pool[link.addr], link.len / DSD_SIZE;
      if n > |list| then None
      else
        assert |pool - {link.addr}| < |pool| by { RemoveShrinks(pool, link.addr); }
        match Follow(pool - {link.addr}, list[n - 1])
        case None => None
        case Some(c) => Some(Chain([link.addr] + c.lists, list[..n - 1] + c.descs))
  }

  lemma RemoveShrinks<T>(pool: map<nat, T>, a: nat)
    requires a in pool
    ensures |pool - {a}| < |pool|
  {
    assert (pool - {a}).Keys == pool.Keys - {a};
    assert |pool.Keys - {a}| == |pool.Keys| - 1;
    assert |pool| == |pool.Keys| && |pool - {a}| == |(pool - {a}).Keys|;
  }

  // ---------- the same in the words the adapter reads ----------

  // What the driver stores for a list: low address, high address and length of every slot.
  function WordsOf(list: seq<Dsd>): (words: seq<u32>)
    ensures |words| == 3 * |list|
  {
    if list == [] then [] else [LSD(list[0].addr), MSD(list[0].addr), LSD(list[0].len)] + WordsOf(list[1..])
  }

  function InWords(pool: Pool): map<nat, seq<u32>> { map a | a in pool :: WordsOf(pool[a]) }

  // A reader takes the words three at a time.
  function Slots(words: seq<u32>): (list: seq<Dsd>)
    ensures |list| == |words| / 3
  {
    if |words| < 3 then [] else [Dsd(words[1] * TWO32 + words[0], words[2])] + Slots(words[3..])
  }

  // Follow a chain from a link in words: the length counts bytes, four to a word, three words to a slot.
  function FollowWords(mem: map<nat, seq<u32>>, link: Dsd): Option<Chain>
    decreases |mem|
  {
    if link.len == 0 then Some(Chain([], []))
    else if link.addr !in mem || link.len % 4 != 0 || link.len / 4 > |mem[link.addr]| then None
    else
      var list := Slots(mem[link.addr][..link.len / 4]);
      if 3 * |list| != link.len / 4 then None
      else
        assert |mem - {link.addr}| < |mem| by { RemoveShrinks(mem, link.addr); }
        match FollowWords(mem - {link.addr}, list[|list| - 1])
        case None => None
        case Some(c) => Some(Chain([link.addr] + c.lists, list[..|list| - 1] + c.descs))
  }

  lemma {:induction false} SlotsOfWords(list: seq<Dsd>, n: nat)
    requires n <= |list|
    ensures Slots(WordsOf(list)[..3 * n]) == CarriedAll(Type7, list[..n])
  {
    if n > 0 {
      SlotsOfWords(list[1..], n - 1);
      SplitAddress(list[0].addr);
      var words := WordsOf(list);
      assert words[..3 * n][3..] == WordsOf(list[1..])[..3 * (n - 1)];
      assert [Type7.Carried(list[0])] + CarriedAll(Type7, list[1..][..n - 1]) == CarriedAll(Type7, list[..n]);
    }
  }

  lemma InWordsWithout(pool: Pool, a: nat)
    ensures InWords(pool - {a}) == InWords(pool) - {a}
  {
  }

  /** Following the words from the same link finds the same lists, and of every descriptor what its words carry. */
  lemma {:induction false} WordsReadBack(pool: Pool, link: Dsd, c: Chain)
    requires Follow(pool, link) == Some(c)
    requires forall a | a in c.lists :: a < TWO64
    requires forall a | a in pool && a in c.lists :: |pool[a]| <= 42
    ensures FollowWords(InWords(pool), link) == Some(Chain(c.lists, CarriedAll(Type7, c.descs)))
    decreases |pool|
  {
    if link.len == 0 {
      assert c.descs == [] && CarriedAll(Type7, c.descs) == [];
    } else {
      var list, n, c' := FollowStep(pool, link, c);
      var rest := pool - {link.addr};
      RemoveShrinks(pool, link.addr);
      assert forall b | b in c'.lists :: b in c.lists;
      WordsReadBack(rest, list[n - 1], c');
      LinkSurvives(rest, list[n - 1], c');
      WordsStep(pool, link, list, n, c');
    }
  }

  lemma FollowStep(pool: Pool, link: Dsd, c: Chain) returns (list: seq<Dsd>, n: nat, c': Chain)
    requires Follow(pool, link) == Some(c) && link.len != 0
    ensures link.addr in pool && list == pool[link.addr] && 0 < n <= |list| && link.len == 12 * n
    ensures Follow(pool - {link.addr}, list[n - 1]) == Some(c')
    ensures c == Chain([link.addr] + c'.lists, list[..n - 1] + c'.descs)
  {
    list, n := pool[link.addr], link.len / DSD_SIZE;
    c' := Follow(pool - {link.addr}, list[n - 1]).value;
  }

  lemma WordsStep(pool: Pool, link: Dsd, list: seq<Dsd>, n: nat, c: Chain)
    requires link.addr in pool && list == pool[link.addr] && 0 < n <= |list| && link.len == 12 * n
    requires Type7.Carried(list[n - 1]) == list[n - 1] || Type7.Carried(list[n - 1]).len == list[n - 1].len == 0
    requires FollowWords(InWords(pool - {link.addr}), list[n - 1]) == Some(Chain(c.lists, CarriedAll(Type7, c.descs)))
    ensures FollowWords(InWords(pool), link) ==
            Some(Chain([link.addr] + c.lists, CarriedAll(Type7, list[..n - 1] + c.descs)))
  {
    SlotsOfWords(list, n);
    InWordsWithout(pool, link.addr);
    FollowWordsOne(InWords(pool), link, CarriedAll(Type7, list[..n]), list[n - 1], CarriedAll(Type7, c.descs), c.lists);
    CarriedJoin(list, n, c.descs);
  }

  lemma CarriedJoin(list: seq<Dsd>, n: nat, more: seq<Dsd>)
    requires 0 < n <= |list|
    ensures CarriedAll(Type7, list[..n])[..n - 1] + CarriedAll(Type7, more) == CarriedAll(Type7, list[..n - 1] + more)
  {
  }

  // A link the chain goes on with, or the end of the chain, survives its three words as far as it matters.
  lemma LinkSurvives(rest: Pool, next: Dsd, c: Chain)
    requires Follow(rest, next) == Some(c)
    requires forall a | a in c.lists :: a < TWO64
    requires forall a | a in rest && a in c.lists :: |rest[a]| <= 42
    ensures Type7.Carried(next) == next || (next.len == 0 && Type7.Carried(next).len == 0)
  {
    if next.len != 0 {
      var list, n, c' := FollowStep(rest, next, c);
      assert next.addr == c.lists[0] && next.addr in c.lists && next.addr in rest;
      assert |list| <= 42 && next.len == 12 * n <= 504;
      CarriedIsExact(Type7, next);
    }
  }

  lemma FollowWordsOne(mem: map<nat, seq<u32>>, link: Dsd, list: seq<Dsd>, next: Dsd, ds: seq<Dsd>, lists: seq<nat>)
    requires link.addr in mem && link.len == 12 * |list| > 0 && 3 * |list| <= |mem[link.addr]|
    requires Slots(mem[link.addr][..3 * |list|]) == list
    requires FollowWords(mem - {link.addr}, next) == Some(Chain(lists, ds))
    requires list[|list| - 1] == next || (list[|list| - 1].len == 0 && next.len == 0)
    ensures FollowWords(mem, link) == Some(Chain([link.addr] + lists, list[..|list| - 1] + ds))
  {
    assert link.len % 4 == 0 && link.len / 4 == 3 * |list|;
  }

  // Following the link finds lists and descriptors; in the words it finds what they carry.
  ghost predicate Found(pool: Pool, link: Dsd, lists: seq<nat>, ds: seq<Dsd>) {
    && Follow(pool, link) == Some(Chain(lists, ds))
    && ((forall a | a in lists :: a < TWO64) ==>
          FollowWords(InWords(pool), link) == Some(Chain(lists, CarriedAll(Type7, ds))))
  }

  // ---------- the layout ----------

  function Min(a: int, b: int): int { if a < b then a else b }

  function CalcDsdLists(dsds: nat): nat { dsds / PER_LIST + (if dsds % PER_LIST != 0 then 1 else 0) }

  // The link that introduces list i of a chain of tot descriptors.
  function LinkTo(lists: seq<nat>, tot: nat, i: nat): Dsd
    requires i < |lists| && 37 * i < tot
  {
    Dsd(lists[i], (Min(PER_LIST, tot - 37 * i) + 1) * DSD_SIZE)
  }

  // What list i holds once done of the tot descriptors are written.
  function Content(lists: seq<nat>, done: seq<Dsd>, tot: nat, i: nat): seq<Dsd>
    requires i < |lists| && 37 * (|lists| - 1) <= |done| && 37 * (|lists| - 1) < tot
  {
    if i + 1 < |lists| then done[37 * i..37 * (i + 1)] + [LinkTo(lists, tot, i + 1)] else done[37 * i..]
  }

  // lists hold the descriptors done, thirty-seven to a list, linked in order from head.
  ghost predicate Laid(pool: Pool, head: Dsd, lists: seq<nat>, done: seq<Dsd>, tot: nat) {
    && |done| <= tot
    && (lists != [] ==> 37 * (|lists| - 1) <= |done| && 37 * (|lists| - 1) < tot && head == LinkTo(lists, tot, 0))
    && |done| <= 37 * |lists|
    && (forall i, j | 0 <= i < j < |lists| :: lists[i] != lists[j])
    && (forall i {:trigger lists[i] in pool} {:trigger pool[lists[i]]} | 0 <= i < |lists| ::
          lists[i] in pool && pool[lists[i]] == Content(lists, done, tot, i))
  }

  function Last(lists: seq<nat>): nat
    requires lists != []
  {
    lists[|lists| - 1]
  }

  // The slot the write pointer stands at is the end of the last list, or the head link itself.
  function Write(pool: Pool, lists: seq<nat>, d: Dsd): Pool {
    if lists == [] || Last(lists) !in pool then pool else pool[Last(lists) := pool[Last(lists)] + [d]]
  }

  function WriteHead(head: Dsd, lists: seq<nat>, d: Dsd): Dsd { if lists == [] then d else head }

  lemma ContentGrows(lists: seq<nat>, done: seq<Dsd>, tot: nat, d: Dsd, i: nat)
    requires i < |lists| && 37 * (|lists| - 1) <= |done| && 37 * (|lists| - 1) < tot
    ensures Content(lists, done + [d], tot, i) == Content(lists, done, tot, i) + if i + 1 < |lists| then [] else [d]
  {
    if i + 1 < |lists| {
      assert (done + [d])[37 * i..37 * (i + 1)] == done[37 * i..37 * (i + 1)];
    } else {
      assert (done + [d])[37 * i..] == done[37 * i..] + [d];
    }
  }

  // Writing a slot changes the last list only.
  lemma WriteAt(pool: Pool, lists: seq<nat>, d: Dsd, i: nat)
    requires i < |lists| && lists[i] in pool && Last(lists) in pool
    requires i + 1 < |lists| ==> lists[i] != Last(lists)
    ensures lists[i] in Write(pool, lists, d)
    ensures Write(pool, lists, d)[lists[i]] == pool[lists[i]] + if i + 1 < |lists| then [] else [d]
  {
    if i + 1 < |lists| { assert pool[lists[i]] + [] == pool[lists[i]]; }
  }

  lemma ContentLinked(lists: seq<nat>, done: seq<Dsd>, tot: nat, a: nat, i: nat)
    requires i < |lists| && |done| == 37 * |lists| < tot
    ensures Content(lists + [a], done, tot, i) ==
            Content(lists, done, tot, i) + if i + 1 < |lists| then [] else [LinkTo(lists + [a], tot, |lists|)]
  {
    if i + 1 < |lists| {
      assert LinkTo(lists + [a], tot, i + 1) == LinkTo(lists, tot, i + 1);
    } else {
      assert done[37 * i..] == done[37 * i..37 * (i + 1)];
    }
  }

  lemma OpenKeeps(pool: Pool, head: Dsd, lists: seq<nat>, done: seq<Dsd>, tot: nat, a: nat)
    requires Laid(pool, head, lists, done, tot) && |done| == 37 * |lists| < tot && a !in lists
    ensures var more := lists + [a];
            var link := LinkTo(more, tot, |lists|);
            Laid(Write(pool, lists, link)[a := []], WriteHead(head, lists, link), more, done, tot)
  {
    var more := lists + [a];
    var link := LinkTo(more, tot, |lists|);
    var pool' := Write(pool, lists, link)[a := []];
    assert Content(more, done, tot, |lists|) == [];
    forall i | 0 <= i < |lists| ensures more[i] in pool' && pool'[more[i]] == Content(more, done, tot, i) {
      WriteAt(pool, lists, link, i);
      ContentLinked(lists, done, tot, a, i);
    }
    if lists != [] { assert LinkTo(more, tot, 0) == LinkTo(lists, tot, 0); }
  }

  lemma AppendKeeps(pool: Pool, head: Dsd, lists: seq<nat>, done: seq<Dsd>, tot: nat, d: Dsd)
    requires Laid(pool, head, lists, done, tot) && |done| < 37 * |lists| && |done| < tot
    ensures Laid(Write(pool, lists, d), head, lists, done + [d], tot)
  {
    var pool', done' := Write(pool, lists, d), done + [d];
    forall i | 0 <= i < |lists| ensures lists[i] in pool' && pool'[lists[i]] == Content(lists, done', tot, i) {
      WriteAt(pool, lists, d, i);
      ContentGrows(lists, done, tot, d, i);
    }
  }

  // ---------- a complete chain ----------

  function Upto(ds: seq<Dsd>, i: nat): nat { Min(37 * (i + 1), |ds|) }

  // List i of a complete chain: its descriptors, then the next link or the null terminator.
  function Final(lists: seq<nat>, ds: seq<Dsd>, i: nat): seq<Dsd>
    requires i < |lists| && 37 * (|lists| - 1) < |ds|
  {
    ds[37 * i..Upto(ds, i)] + [if i + 1 < |lists| then LinkTo(lists, |ds|, i + 1) else NULL]
  }

  ghost predicate Ended(pool: Pool, head: Dsd, lists: seq<nat>, ds: seq<Dsd>) {
    && |lists| == CalcDsdLists(|ds|)
    && (forall i, j | 0 <= i < j < |lists| :: lists[i] != lists[j])
    && head == (if lists == [] then NULL else LinkTo(lists, |ds|, 0))
    && (forall i {:trigger lists[i] in pool} {:trigger pool[lists[i]]} | 0 <= i < |lists| ::
          lists[i] in pool && pool[lists[i]] == Final(lists, ds, i))
  }

  /** Writing the terminator completes the chain. */
  lemma CloseKeeps(pool: Pool, head: Dsd, lists: seq<nat>, ds: seq<Dsd>)
    requires Laid(pool, head, lists, ds, |ds|)
    ensures Ended(Write(pool, lists, NULL), WriteHead(head, lists, NULL), lists, ds)
  {
    var pool' := Write(pool, lists, NULL);
    forall i | 0 <= i < |lists| ensures lists[i] in pool' && pool'[lists[i]] == Final(lists, ds, i) {
      ContentAtEnd(lists, ds, i);
      WriteAt(pool, lists, NULL, i);
    }
    ListsForAll(|lists|, |ds|);
  }

  lemma ListsForAll(k: nat, n: nat)
    requires 37 * (k - 1) < n <= 37 * k || k == n == 0
    ensures k == CalcDsdLists(n)
  {
  }

  lemma ContentAtEnd(lists: seq<nat>, ds: seq<Dsd>, i: nat)
    requires i < |lists| && 37 * (|lists| - 1) < |ds| <= 37 * |lists|
    ensures Content(lists, ds, |ds|, i) + (if i + 1 < |lists| then [] else [NULL]) == Final(lists, ds, i)
    ensures 37 * i < Upto(ds, i) && ds[37 * i..] == ds[37 * i..Upto(ds, i)] + ds[Upto(ds, i)..]
    ensures i + 1 < |lists| ==> Upto(ds, i) == 37 * (i + 1)
    ensures i + 1 == |lists| ==> Upto(ds, i) == |ds|
  {
  }

  lemma FollowOne(rest: Pool, link: Dsd, chunk: seq<Dsd>, next: Dsd, c: Chain)
    requires link.addr in rest && rest[link.addr] == chunk + [next] && link.len == (|chunk| + 1) * DSD_SIZE
    requires Follow(rest - {link.addr}, next) == Some(c)
    ensures Follow(rest, link) == Some(Chain([link.addr] + c.lists, chunk + c.descs))
  {
    assert link.len / DSD_SIZE == |chunk| + 1 && link.len % DSD_SIZE == 0;
    assert (chunk + [next])[..|chunk|] == chunk;
  }

  // Lists i and later of a complete chain, all different, are still to be found in rest.
  ghost predicate Remaining(rest: Pool, lists: seq<nat>, ds: seq<Dsd>, i: nat)
    requires 37 * (|lists| - 1) < |ds| <= 37 * |lists|
  {
    && (forall j, k | i <= j < k < |lists| :: lists[j] != lists[k])
    && (forall j {:trigger lists[j] in rest} {:trigger rest[lists[j]]} | i <= j < |lists| ::
          lists[j] in rest && rest[lists[j]] == Final(lists, ds, j))
  }

  /** From any list of a complete chain the reader recovers the descriptors from there on. */
  lemma {:induction false} FollowFrom(rest: Pool, lists: seq<nat>, ds: seq<Dsd>, i: nat)
    requires i < |lists| && 37 * (|lists| - 1) < |ds| <= 37 * |lists| && Remaining(rest, lists, ds, i)
    ensures Follow(rest, LinkTo(lists, |ds|, i)) == Some(Chain(lists[i..], ds[37 * i..]))
    decreases |lists| - i
  {
    if i + 1 < |lists| {
      assert Remaining(rest - {lists[i]}, lists, ds, i + 1);
      FollowFrom(rest - {lists[i]}, lists, ds, i + 1);
    }
    FollowList(rest, lists, ds, i);
  }

  lemma FollowList(rest: Pool, lists: seq<nat>, ds: seq<Dsd>, i: nat)
    requires i < |lists| && 37 * (|lists| - 1) < |ds| <= 37 * |lists|
    requires lists[i] in rest && rest[lists[i]] == Final(lists, ds, i)
    requires i + 1 < |lists| ==>
               Follow(rest - {lists[i]}, LinkTo(lists, |ds|, i + 1)) == Some(Chain(lists[i + 1..], ds[37 * (i + 1)..]))
    ensures Follow(rest, LinkTo(lists, |ds|, i)) == Some(Chain(lists[i..], ds[37 * i..]))
  {
    var chunk := ds[37 * i..Upto(ds, i)];
    ContentAtEnd(lists, ds, i);
    if i + 1 < |lists| {
      assert [lists[i]] + lists[i + 1..] == lists[i..];
      FollowOne(rest, LinkTo(lists, |ds|, i), chunk, LinkTo(lists, |ds|, i + 1),
                Chain(lists[i + 1..], ds[Upto(ds, i)..]));
    } else {
      assert [lists[i]] + [] == lists[i..] && chunk + [] == ds[37 * i..];
      FollowOne(rest, LinkTo(lists, |ds|, i), chunk, NULL, Chain([], []));
    }
  }

  lemma ListsFit(pool: Pool, head: Dsd, lists: seq<nat>, ds: seq<Dsd>)
    requires Ended(pool, head, lists, ds)
    ensures 37 * (|lists| - 1) < |ds| <= 37 * |lists| || (ds == [] && lists == [])
    ensures forall i {:trigger pool[lists[i]]} | 0 <= i < |lists| :: lists[i] in pool && |pool[lists[i]]| <= 38
    ensures lists != [] ==> var last := pool[Last(lists)]; last != [] && last[|last| - 1] == Dsd(0, 0)
  {
    forall i | 0 <= i < |lists| ensures lists[i] in pool && |pool[lists[i]]| <= 38 {
      ContentAtEnd(lists, ds, i);
    }
  }

  /**
   Main result: following a complete chain from its head visits every list once, in order, recovers
   exactly the descriptors, needs ceil(n / 37) lists, and every list fits its pool element; the same in
   the words, when the lists have 64-bit addresses.
   */
  lemma ChainReadsBack(pool: Pool, head: Dsd, lists: seq<nat>, ds: seq<Dsd>)
    requires Ended(pool, head, lists, ds)
    ensures Found(pool, head, lists, ds)
    ensures 37 * (|lists| - 1) < |ds| <= 37 * |lists| || (ds == [] && lists == [])
    ensures ds != [] ==> head == Dsd(lists[0], 4 * 3 * (Min(37, |ds|) + 1))
    ensures forall i {:trigger pool[lists[i]]} | 0 <= i < |lists| ::
              lists[i] in pool && 4 * |WordsOf(pool[lists[i]])| <= 512
    ensures lists != [] ==> var last := pool[Last(lists)]; last != [] && last[|last| - 1] == Dsd(0, 0)
  {
    ListsFit(pool, head, lists, ds);
    if lists != [] {
      FollowFrom(pool, lists, ds, 0);
      assert lists[0..] == lists && ds[0..] == ds;
    }
    if forall a | a in lists :: a < TWO64 { WordsReadBack(pool, head, Chain(lists, ds)); }
  }

  // ---------- the walkers' shared write step ----------

  // The local state of a walker: descriptors left in the current list (eight bits), descriptors not yet
  // assigned to a list (sixteen bits), and the lists linked so far.  supply is what the DMA pool will
  // still hand out.  A list written past its element simply goes on in the model.
  datatype Writer = Writer(pool: Pool, head: Dsd, lists: seq<nat>, supply: seq<nat>, avail: u8, used: u16)

  function Fresh(pool: Pool, head: Dsd, supply: seq<nat>, tot: u16): Writer { Writer(pool, head, [], supply, 0, tot) }

  // A new list for the next descriptors, linked from where the last one ended.
  function Opened(w: Writer): Writer
    requires w.supply != []
  {
    var avail := if w.used > PER_LIST then PER_LIST else w.used;
    var link := Dsd(w.supply[0], (avail + 1) * DSD_SIZE);
    Writer(Write(w.pool, w.lists, link)[w.supply[0] := []], WriteHead(w.head, w.lists, link),
           w.lists + [w.supply[0]], w.supply[1..], avail, w.used - avail)
  }

  // A descriptor at the write pointer; the counter goes down by one, from zero to 255.
  function Put(w: Writer, d: Dsd): Writer {
    w.(pool := Write(w.pool, w.lists, d), avail := if w.avail == 0 then 255 else w.avail - 1)
  }

  function Emitted(w: Writer, d: Dsd): Option<Writer> {
    if w.avail != 0 then Some(Put(w, d)) else if w.supply == [] then None else Some(Put(Opened(w), d))
  }

  function EmitAll(w: Writer, ds: seq<Dsd>): Option<Writer>
    decreases |ds|
  {
    if ds == [] then Some(w)
    else match Emitted(w, ds[0]) case None => None case Some(x) => EmitAll(x, ds[1..])
  }

  // The null terminator.
  function Closed(w: Writer): Writer {
    w.(pool := Write(w.pool, w.lists, NULL), head := WriteHead(w.head, w.lists, NULL))
  }

  // Does the counter go below zero on the way?
  predicate Underflows(w: Writer, ds: seq<Dsd>)
    decreases |ds|
  {
    ds != []
    && ((w.avail == 0 && w.used == 0 && w.supply != [])
        || match Emitted(w, ds[0]) case None => false case Some(x) => Underflows(x, ds[1..]))
  }

  // Every list fits its element of the DMA pool.
  ghost predicate FitElements(pool: Pool, lists: seq<nat>) {
    forall i {:trigger lists[i]} | 0 <= i < |lists| && lists[i] in pool :: 4 * |WordsOf(pool[lists[i]])| <= POOL_SIZE
  }

  class ChainWriter {
    var pool: Pool
    var head: Dsd
    var lists: seq<nat>
    var supply: seq<nat>
    var availDsds: u8
    var usedDsds: u16

    function View(): Writer
      reads this
    {
      Writer(pool, head, lists, supply, availDsds, usedDsds)
    }

    constructor (tot: u16, pool: Pool, head: Dsd, supply: seq<nat>)
      ensures View() == Fresh(pool, head, supply, tot)
    {
      this.pool, this.head, this.supply := pool, head, supply;
      lists, availDsds, usedDsds := [], 0, tot;
    }

    method OpenList() returns (ok: bool)
      modifies this
      ensures ok <==> old(supply) != []
      ensures ok ==> View() == Opened(old(View()))
    {
      var avail := if usedDsds > PER_LIST then PER_LIST else usedDsds;
      var len := (avail + 1) * DSD_SIZE;
      availDsds, usedDsds := avail, usedDsds - avail;
      ok := supply != [];
      if !ok { return; }
      var link := Dsd(supply[0], len);
      head := WriteHead(head, lists, link);
      pool := Write(pool, lists, link)[supply[0] := []];
      lists := lists + [supply[0]];
      supply := supply[1..];
    }

    /** One descriptor into the chain, opening a new list when the counter stands at zero. */
    method Emit(d: Dsd) returns (ok: bool)
      modifies this
      ensures ok <==> Emitted(old(View()), d).Some?
      ensures ok ==> Some(View()) == Emitted(old(View()), d)
    {
      ok := true;
      if availDsds == 0 {
        ok := OpenList();
        if !ok { return; }
      }
      pool := Write(pool, lists, d);
      availDsds := if availDsds == 0 then 255 else availDsds - 1;
    }

    method Terminate()
      modifies this
      ensures View() == Closed(old(View()))
    {
      var p := Write(pool, lists, NULL);
      head := WriteHead(head, lists, NULL);
      pool := p;
    }
  }

  // ---------- walks whose count is right ----------

  // The pool hands out distinct elements nobody else uses.
  predicate Unused(pool: Pool, supply: seq<nat>) {
    && (forall i, j | 0 <= i < j < |supply| :: supply[i] != supply[j])
    && (forall i | 0 <= i < |supply| :: supply[i] !in pool)
  }

  ghost predicate Untouched(others: Pool, pool: Pool, lists: seq<nat>) {
    && (forall a | a in others :: a in pool && pool[a] == others[a])
    && (forall i | 0 <= i < |lists| :: lists[i] !in others)
  }

  lemma WriteElsewhere(pool: Pool, supply: seq<nat>, lists: seq<nat>, others: Pool, d: Dsd)
    requires Unused(pool, supply) && Untouched(others, pool, lists)
    ensures Unused(Write(pool, lists, d), supply) && Untouched(others, Write(pool, lists, d), lists)
    ensures supply != [] ==>
              && Unused(Write(pool, lists, d)[supply[0] := []], supply[1..])
              && Untouched(others, Write(pool, lists, d)[supply[0] := []], lists + [supply[0]])
  {
  }

  // A walk that was told tot descriptors and has emitted done; others are elements of other commands.
  ghost predicate Sound(w: Writer, done: seq<Dsd>, tot: nat, others: Pool) {
    && Laid(w.pool, w.head, w.lists, done, tot)
    && w.avail == Min(37 * |w.lists|, tot) - |done|
    && w.used == tot - Min(37 * |w.lists|, tot)
    && Unused(w.pool, w.supply)
    && Untouched(others, w.pool, w.lists)
  }

  lemma OpenSound(w: Writer, done: seq<Dsd>, tot: nat, others: Pool)
    requires Sound(w, done, tot, others) && |done| == 37 * |w.lists| < tot && w.supply != []
    ensures Sound(Opened(w), done, tot, others)
  {
    var a := w.supply[0];
    var link := LinkTo(w.lists + [a], tot, |w.lists|);
    assert a !in w.lists by {
      forall i | 0 <= i < |w.lists| ensures w.lists[i] != a { assert w.lists[i] in w.pool; }
    }
    OpenKeeps(w.pool, w.head, w.lists, done, tot, a);
    WriteElsewhere(w.pool, w.supply, w.lists, others, link);
    assert Opened(w).pool == Write(w.pool, w.lists, link)[a := []];
  }

  lemma PutSound(w: Writer, d: Dsd, done: seq<Dsd>, tot: nat, others: Pool)
    requires Sound(w, done, tot, others) && |done| < 37 * |w.lists| && |done| < tot
    ensures Sound(Put(w, d), done + [d], tot, others)
  {
    AppendKeeps(w.pool, w.head, w.lists, done, tot, d);
    WriteElsewhere(w.pool, w.supply, w.lists, others, d);
  }

  ghost predicate Valid(w: Writer, done: seq<Dsd>, tot: nat, others: Pool) {
    Sound(w, done, tot, others) && |w.lists| == CalcDsdLists(|done|)
  }

  lemma EmitValid(w: Writer, d: Dsd, done: seq<Dsd>, tot: nat, others: Pool)
    requires Valid(w, done, tot, others) && |done| < tot
    ensures !(w.avail == 0 && w.used == 0)
    ensures Emitted(w, d).None? ==> |w.lists| + |w.supply| < CalcDsdLists(|done| + 1)
    ensures Emitted(w, d).Some? ==>
              var x := Emitted(w, d).value;
              Valid(x, done + [d], tot, others) && |x.lists| + |x.supply| == |w.lists| + |w.supply|
  {
    ListsGrow(|done|);
    if w.avail == 0 {
      if w.supply != [] {
        OpenSound(w, done, tot, others);
        PutSound(Opened(w), d, done, tot, others);
      }
    } else {
      PutSound(w, d, done, tot, others);
    }
  }

  /** A walk told at least what it emits keeps its counter and its layout, and fails only for want of lists. */
  lemma {:induction false} EmitAllValid(w: Writer, ds: seq<Dsd>, done: seq<Dsd>, tot: nat, others: Pool)
    requires Valid(w, done, tot, others) && |done| + |ds| <= tot
    ensures !Underflows(w, ds)
    ensures EmitAll(w, ds).None? ==> |w.lists| + |w.supply| < CalcDsdLists(|done| + |ds|)
    ensures EmitAll(w, ds).Some? ==>
              var x := EmitAll(w, ds).value;
              Valid(x, done + ds, tot, others) && |x.lists| + |x.supply| == |w.lists| + |w.supply|
    decreases |ds|
  {
    if ds == [] {
      assert done + ds == done;
    } else {
      EmitValid(w, ds[0], done, tot, others);
      ListsMonotone(|done| + 1, |done| + |ds|);
      assert (done + [ds[0]]) + ds[1..] == done + ds;
      match Emitted(w, ds[0])
      case None =>
      case Some(x) => EmitAllValid(x, ds[1..], done + [ds[0]], tot, others);
    }
  }

  lemma FreshValid(pool: Pool, head: Dsd, supply: seq<nat>, tot: u16)
    requires Unused(pool, supply)
    ensures Valid(Fresh(pool, head, supply, tot), [], tot, pool)
  {
  }

  lemma CloseSound(w: Writer, ds: seq<Dsd>, others: Pool)
    requires Sound(w, ds, |ds|, others)
    ensures var z := Closed(w); Ended(z.pool, z.head, z.lists, ds) && Untouched(others, z.pool, z.lists)
  {
    CloseKeeps(w.pool, w.head, w.lists, ds);
    WriteElsewhere(w.pool, w.supply, w.lists, others, NULL);
  }

  /** With the right count a walk completes exactly when the pool has the lists, and its chain is complete. */
  lemma ExactWalk(pool: Pool, head: Dsd, supply: seq<nat>, ds: seq<Dsd>)
    requires Unused(pool, supply) && |ds| < TWO16
    ensures EmitAll(Fresh(pool, head, supply, |ds|), ds).Some? <==> CalcDsdLists(|ds|) <= |supply|
    ensures EmitAll(Fresh(pool, head, supply, |ds|), ds).Some? ==>
              var z := Closed(EmitAll(Fresh(pool, head, supply, |ds|), ds).value);
              && Ended(z.pool, z.head, z.lists, ds) && Untouched(pool, z.pool, z.lists)
              && Unused(z.pool, z.supply) && |z.supply| == |supply| - CalcDsdLists(|ds|)
  {
    var w := Fresh(pool, head, supply, |ds|);
    FreshValid(pool, head, supply, |ds|);
    EmitAllValid(w, ds, [], |ds|, pool);
    assert [] + ds == ds;
    if EmitAll(w, ds).Some? {
      var x := EmitAll(w, ds).value;
      CloseSound(x, ds, pool);
      WriteElsewhere(x.pool, x.supply, x.lists, pool, NULL);
    }
  }

  lemma ListsGrow(n: nat)
    ensures CalcDsdLists(n + 1) == CalcDsdLists(n) + (if n == 37 * CalcDsdLists(n) then 1 else 0)
    ensures n <= 37 * CalcDsdLists(n)
  {
  }

  lemma ListsMonotone(n: nat, m: nat)
    requires n <= m
    ensures CalcDsdLists(n) <= CalcDsdLists(m)
  {
  }

  // ---------- walks whose count has wrapped ----------

  lemma {:induction false} EmitAllSplits(w: Writer, a: seq<Dsd>, b: seq<Dsd>)
    ensures EmitAll(w, a + b) == match EmitAll(w, a) case None => None case Some(x) => EmitAll(x, b)
    ensures Underflows(w, a + b) <==>
            Underflows(w, a) || (EmitAll(w, a).Some? && Underflows(EmitAll(w, a).value, b))
    decreases |a|
  {
    if a == [] {
      assert a + b == b;
    } else {
      assert (a + b)[0] == a[0] && (a + b)[1..] == a[1..] + b;
      match Emitted(w, a[0])
      case None =>
      case Some(x) => EmitAllSplits(x, a[1..], b);
    }
  }

  // List a exists and holds at least n descriptors; no list still to come is a.
  ghost predicate Holding(w: Writer, a: nat, n: nat) {
    a in w.lists && a in w.pool && |w.pool[a]| >= n && Unused(w.pool, w.supply)
  }

  lemma {:induction false} HoldingStays(w: Writer, ds: seq<Dsd>, a: nat, n: nat)
    requires Holding(w, a, n) && EmitAll(w, ds).Some?
    ensures Holding(EmitAll(w, ds).value, a, n)
    decreases |ds|
  {
    if ds != [] { HoldingStays(Emitted(w, ds[0]).value, ds[1..], a, n); }
  }

  // While the counter lasts the descriptors all go to the same list.
  lemma {:induction false} FillsOneList(w: Writer, ds: seq<Dsd>)
    requires |ds| <= w.avail && w.lists != [] && Holding(w, Last(w.lists), 0)
    ensures EmitAll(w, ds).Some?
    ensures Holding(EmitAll(w, ds).value, Last(w.lists), |w.pool[Last(w.lists)]| + |ds|)
    decreases |ds|
  {
    if ds != [] { FillsOneList(Put(w, ds[0]), ds[1..]); }
  }

  /** A new list opened for nothing takes 256 descriptors. */
  lemma OverfillsOneList(w: Writer, ds: seq<Dsd>)
    requires w.avail == 0 && w.used == 0 && Unused(w.pool, w.supply)
    requires |ds| == 256 && EmitAll(w, ds).Some?
    ensures Underflows(w, ds)
    ensures exists a :: Holding(EmitAll(w, ds).value, a, 256)
  {
    var a := w.supply[0];
    var x := Emitted(w, ds[0]).value;
    assert Last(x.lists) == a && x.pool[a] == [] + [ds[0]] && x.avail == 255;
    WriteElsewhere(w.pool, w.supply, w.lists, map[], Dsd(a, DSD_SIZE));
    FillsOneList(x, ds[1..]);
  }

  lemma OverfillsForGood(w: Writer, ds: seq<Dsd>)
    requires w.avail == 0 && w.used == 0 && Unused(w.pool, w.supply)
    requires |ds| >= 256 && EmitAll(w, ds).Some?
    ensures Underflows(w, ds)
    ensures exists a :: Holding(EmitAll(w, ds).value, a, 256)
  {
    var more, rest := ds[..256], ds[256..];
    assert ds == more + rest;
    EmitAllSplits(w, more, rest);
    OverfillsOneList(w, more);
    var a :| Holding(EmitAll(w, more).value, a, 256);
    HoldingStays(EmitAll(w, more).value, rest, a, 256);
  }

  // After as many descriptors as the walk was told, both counters stand at zero.
  lemma ZeroAfterTold(pool: Pool, head: Dsd, supply: seq<nat>, first: seq<Dsd>)
    requires Unused(pool, supply) && |first| < TWO16
    requires EmitAll(Fresh(pool, head, supply, |first|), first).Some?
    ensures var x := EmitAll(Fresh(pool, head, supply, |first|), first).value;
            && x.avail == 0 && x.used == 0 && Unused(x.pool, x.supply)
            && |x.supply| == |supply| - CalcDsdLists(|first|)
  {
    FreshValid(pool, head, supply, |first|);
    EmitAllValid(Fresh(pool, head, supply, |first|), first, [], |first|, pool);
    assert [] + first == first;
    ListsGrow(|first|);
  }

  /** A walk told too few descriptors, by 256 or more, underflows its counter and overfills a list. */
  lemma WrappedWalk(pool: Pool, head: Dsd, supply: seq<nat>, ds: seq<Dsd>, tot: u16)
    requires Unused(pool, supply) && |ds| >= tot + 256
    requires EmitAll(Fresh(pool, head, supply, tot), ds).Some?
    ensures Underflows(Fresh(pool, head, supply, tot), ds)
    ensures var z := Closed(EmitAll(Fresh(pool, head, supply, tot), ds).value); !FitElements(z.pool, z.lists)
  {
    var w, first, rest := Fresh(pool, head, supply, tot), ds[..tot], ds[tot..];
    assert ds == first + rest;
    EmitAllSplits(w, first, rest);
    ZeroAfterTold(pool, head, supply, first);
    OverfillsForGood(EmitAll(w, first).value, rest);
    var a :| Holding(EmitAll(w, ds).value, a, 256);
    CloseHolds(EmitAll(w, ds).value, a);
  }

  lemma CloseHolds(w: Writer, a: nat)
    requires Holding(w, a, 256)
    ensures !FitElements(Closed(w).pool, w.lists)
  {
    var z := Closed(w);
    var i :| 0 <= i < |w.lists| && w.lists[i] == a;
    assert z.lists[i] in z.pool && |z.pool[z.lists[i]]| >= 256;
  }

  /** A walk told the right count keeps its counter above zero, fits its elements, and reads back. */
  lemma RightWalk(pool: Pool, head: Dsd, supply: seq<nat>, ds: seq<Dsd>, tot: u16)
    requires Unused(pool, supply) && |ds| == tot && EmitAll(Fresh(pool, head, supply, tot), ds).Some?
    ensures !Underflows(Fresh(pool, head, supply, tot), ds)
    ensures var z := Closed(EmitAll(Fresh(pool, head, supply, tot), ds).value);
            && FitElements(z.pool, z.lists) && Untouched(pool, z.pool, z.lists)
            && Found(z.pool, z.head, z.lists, ds)
  {
    FreshValid(pool, head, supply, tot);
    EmitAllValid(Fresh(pool, head, supply, tot), ds, [], tot, pool);
    ExactWalk(pool, head, supply, ds);
    var z := Closed(EmitAll(Fresh(pool, head, supply, tot), ds).value);
    ChainReadsBack(z.pool, z.head, z.lists, ds);
  }

  lemma ToldInWords(n: nat, tot: u16)
    requires tot == n % TWO16
    ensures if n < TWO16 then tot == n else n >= tot + 256
  {
  }

  /**
   Main result on the counters, for a walk of any length that is told the length in sixteen bits: if it
   completes, its 8-bit counter never went below zero, and every list fits its pool element, exactly when
   the length has sixteen bits.
   */
  lemma WalkFitsIffCountFits(pool: Pool, head: Dsd, supply: seq<nat>, ds: seq<Dsd>, tot: u16)
    requires Unused(pool, supply) && tot == |ds| % TWO16 && EmitAll(Fresh(pool, head, supply, tot), ds).Some?
    ensures var z := Closed(EmitAll(Fresh(pool, head, supply, tot), ds).value);
            FitElements(z.pool, z.lists) <==> |ds| < TWO16
    ensures Underflows(Fresh(pool, head, supply, tot), ds) <==> |ds| >= TWO16
  {
    ToldInWords(|ds|, tot);
    if |ds| == tot {
      RightWalk(pool, head, supply, ds, tot);
    } else {
      WrappedWalk(pool, head, supply, ds, tot);
    }
  }

  /**
   And whether it completes or not: the counter goes below zero exactly when the length does not have
   sixteen bits and the pool holds a list beyond those the told length needs.
   */
  lemma UnderflowsExactly(pool: Pool, head: Dsd, supply: seq<nat>, ds: seq<Dsd>, tot: u16)
    requires Unused(pool, supply) && tot == |ds| % TWO16
    ensures Underflows(Fresh(pool, head, supply, tot), ds) <==> |ds| >= TWO16 && |supply| > CalcDsdLists(tot)
  {
    ToldInWords(|ds|, tot);
    var w, first, rest := Fresh(pool, head, supply, tot), ds[..tot], ds[tot..];
    assert ds == first + rest;
    EmitAllSplits(w, first, rest);
    FreshValid(pool, head, supply, tot);
    EmitAllValid(w, first, [], tot, pool);
    ExactWalk(pool, head, supply, first);
    if EmitAll(w, first).Some? { ZeroAfterTold(pool, head, supply, first); }
  }

  // ---------- the walkers ----------

  lemma NextOf(sgl: seq<Dsd>, i: nat)
    requires i < |sgl|
    ensures sgl[i..][0] == sgl[i] && sgl[i..][1..] == sgl[i + 1..]
  {
  }

  /** The bundling walkers, for a data list and for a protection list alike: the first tot segments. */
  method WalkSglist(sgl: seq<Dsd>, tot: u16, pool: Pool, head: Dsd, supply: seq<nat>)
    returns (ok: bool, pool': Pool, head': Dsd, lists: seq<nat>, supply': seq<nat>)
    requires tot <= |sgl| && Unused(pool, supply)
    ensures ok <==> CalcDsdLists(tot) <= |supply|
    ensures ok ==> Ended(pool', head', lists, sgl[..tot]) && Untouched(pool, pool', lists)
    ensures ok ==> Unused(pool', supply') && |supply'| == |supply| - CalcDsdLists(tot)
  {
    var w := new ChainWriter(tot, pool, head, supply);
    ok, pool', head', lists, supply' := true, pool, head, [], supply;
    ghost var ds := sgl[..tot];
    ExactWalk(pool, head, supply, ds);
    for i := 0 to tot
      invariant fresh(w) && EmitAll(w.View(), ds[i..]) == EmitAll(Fresh(pool, head, supply, tot), ds)
    {
      NextOf(ds, i);
      ok := w.Emit(sgl[i]);
      if !ok { return; }
    }
    w.Terminate();
    pool', head', lists, supply' := w.pool, w.head, w.lists, w.supply;
  }

  /** The next 8-byte tuple, moving to the next protection segment when this one is used up. */
  method TakeTuple(prot: seq<Dsd>, sg: nat, used: nat) returns (d: Dsd, sg': nat, used': nat)
    requires OnProt(prot, ProtCursor(sg, used)) && sg < |prot|
    ensures d == TupleAt(prot, ProtCursor(sg, used))
    ensures ProtCursor(sg', used') == NextTuple(prot, ProtCursor(sg, used)) && OnProt(prot, ProtCursor(sg', used'))
  {
    TupleSplitsRest(prot, ProtCursor(sg, used));
    d := Dsd(prot[sg].addr + used, 8);
    sg', used' := sg, used + 8;
    if used' == prot[sg].len {
      used' := 0;
      sg' := sg + 1;
    }
  }

  // Where the walk stands: its cursors, and what it still has to emit.
  ghost predicate Walking(sgl: seq<Dsd>, prot: seq<Dsd>, blk: nat, c: Cursor, p: ProtCursor, n: nat, rest: seq<Dsd>) {
    && Ready(sgl, blk, Total(sgl), c, n) && OnProt(prot, p)
    && Emission(sgl, prot, blk, Total(sgl), c, p) == Some(rest)
  }

  // The tuple that follows a fragment, if the fragment completed its block.
  ghost function TupleAfter(prot: seq<Dsd>, p: ProtCursor, partial: bool): seq<Dsd> {
    if partial || !OnProt(prot, p) || p.curSg >= |prot| then [] else [TupleAt(prot, p)]
  }

  lemma WalkingStep(sgl: seq<Dsd>, prot: seq<Dsd>, blk: nat, c: Cursor, p: ProtCursor, n: nat, rest: seq<Dsd>)
    returns (p': ProtCursor, n': nat, rest': seq<Dsd>)
    requires Walking(sgl, prot, blk, c, p, n, rest)
    ensures c.numBytes == Total(sgl) <==> rest == []
    ensures rest != [] ==>
              var t := Take(sgl, blk, c);
              && Walking(sgl, prot, blk, t.next, p', n', rest') && Left(sgl, t.next) < Left(sgl, c)
              && rest == [t.d] + TupleAfter(prot, p, t.partial) + rest'
              && (if t.partial then p' == p else p.curSg < |prot| && p' == NextTuple(prot, p))
  {
    p', n', rest' := p, n, rest;
    if c.numBytes != Total(sgl) {
      StaysReady(sgl, blk, Total(sgl), c, n);
      if Take(sgl, blk, c).partial {
        rest' := rest[1..];
      } else {
        TupleSplitsRest(prot, p);
        p', n', rest' := NextTuple(prot, p), n - 1, rest[2..];
      }
    }
  }

  ghost predicate Stream(sgl: seq<Dsd>, prot: seq<Dsd>, blk: nat, ds: seq<Dsd>) {
    Emission(sgl, prot, blk, Total(sgl), START, ProtCursor(0, 0)) == Some(ds)
  }

  lemma StreamStarts(sgl: seq<Dsd>, prot: seq<Dsd>, blk: nat, ds: seq<Dsd>)
    requires Mapped(sgl) && blk > 0 && Total(sgl) % blk == 0 && TupleSegments(prot) && Stream(sgl, prot, blk, ds)
    ensures Walking(sgl, prot, blk, START, ProtCursor(0, 0), Total(sgl) / blk, ds)
  {
    StartReady(sgl, blk);
  }

  // The walk and the chain in step: what is still to come takes the writer where the whole stream would.
  ghost predicate InStep(sgx: Sgx, w: ChainWriter, prot: seq<Dsd>, blk: nat, p: ProtCursor, n: nat,
                         rest: seq<Dsd>, end: Option<Writer>)
    reads sgx, w
  {
    && sgx.totBytes == Total(sgx.sgl) && Walking(sgx.sgl, prot, blk, sgx.At(), p, n, rest)
    && EmitAll(w.View(), rest) == end
  }

  /** One turn of the walk: a fragment and, if it completes its block, the block's tuple. */
  method WalkOne(sgx: Sgx, w: ChainWriter, prot: seq<Dsd>, blk: nat, sg: nat, used: nat,
                 ghost n: nat, ghost rest: seq<Dsd>, ghost end: Option<Writer>)
    returns (more: bool, ok: bool, sg': nat, used': nat, ghost n': nat, ghost rest': seq<Dsd>)
    requires InStep(sgx, w, prot, blk, ProtCursor(sg, used), n, rest, end)
    modifies sgx, w
    ensures !more ==> ok && end == Some(w.View())
    ensures more && ok ==> InStep(sgx, w, prot, blk, ProtCursor(sg', used'), n', rest', end)
    ensures more && ok ==> Left(sgx.sgl, sgx.At()) < old(Left(sgx.sgl, sgx.At()))
    ensures !ok ==> end == None
  {
    ok, sg', used', n', rest' := true, sg, used, n, rest;
    ghost var p := ProtCursor(sg, used);
    ghost var p';
    p', n', rest' := WalkingStep(sgx.sgl, prot, blk, sgx.At(), p, n, rest);
    var partial;
    more, partial := sgx.GetOneBlockSg(blk);
    if !more { return; }
    ok, sg', used' := EmitPart(w, Dsd(sgx.dmaAddr, sgx.dmaLen), partial, prot, sg, used, rest', end);
  }

  /**
   The no-bundling walker, told any sixteen-bit count: fragment by fragment through the scatter list, and
   after the last fragment of each block one tuple of the protection list.  ds is what the specification
   says the walk emits.
   */
  method WalkNoDifb(sgl: seq<Dsd>, prot: seq<Dsd>, blk: nat, tot: u16, pool: Pool, head: Dsd, supply: seq<nat>,
                    ghost ds: seq<Dsd>)
    returns (ok: bool, pool': Pool, head': Dsd, lists: seq<nat>)
    requires Mapped(sgl) && blk > 0 && Total(sgl) % blk == 0 && TupleSegments(prot) && Stream(sgl, prot, blk, ds)
    ensures ok <==> EmitAll(Fresh(pool, head, supply, tot), ds).Some?
    ensures ok ==>
              var z := Closed(EmitAll(Fresh(pool, head, supply, tot), ds).value);
              pool' == z.pool && head' == z.head && lists == z.lists
  {
    ok, pool', head', lists := true, pool, head, [];
    var w := new ChainWriter(tot, pool, head, supply);
    var sgx := new Sgx(sgl, Total(sgl));
    var curProt, protUsed, more := 0, 0, true;
    ghost var n: nat, rest := Total(sgl) / blk, ds;
    ghost var end := EmitAll(w.View(), ds);
    StreamStarts(sgl, prot, blk, ds);
    while more
      invariant fresh(sgx) && fresh(w) && sgx.sgl == sgl
      invariant more ==> InStep(sgx, w, prot, blk, ProtCursor(curProt, protUsed), n, rest, end)
      invariant !more ==> end == Some(w.View())
      decreases more, Left(sgl, sgx.At())
    {
      more, ok, curProt, protUsed, n, rest := WalkOne(sgx, w, prot, blk, curProt, protUsed, n, rest, end);
      if !ok { return; }
    }
    w.Terminate();
    pool', head', lists := w.pool, w.head, w.lists;
  }

  /** A fragment, then the next tuple if the fragment completed its block; fails when the pool runs dry. */
  method EmitPart(w: ChainWriter, d: Dsd, partial: bool, prot: seq<Dsd>, sg: nat, used: nat,
                  ghost rest: seq<Dsd>, ghost end: Option<Writer>)
    returns (ok: bool, sg': nat, used': nat)
    requires OnProt(prot, ProtCursor(sg, used)) && (!partial ==> sg < |prot|)
    requires EmitAll(w.View(), [d] + TupleAfter(prot, ProtCursor(sg, used), partial) + rest) == end
    modifies w
    ensures ok ==> EmitAll(w.View(), rest) == end
    ensures ok ==>
              ProtCursor(sg', used') == if partial then ProtCursor(sg, used) else NextTuple(prot, ProtCursor(sg, used))
    ensures !ok ==> end == None
  {
    sg', used' := sg, used;
    ghost var after := TupleAfter(prot, ProtCursor(sg, used), partial);
    OneMore(d, after + rest);
    assert [d] + after + rest == [d] + (after + rest);
    ok := w.Emit(d);
    if !ok { return; }
    if partial {
      assert after + rest == rest;
      return;
    }
    var tuple;
    tuple, sg', used' := TakeTuple(prot, sg, used);
    OneMore(tuple, rest);
    ok := w.Emit(tuple);
  }

  lemma OneMore(d: Dsd, rest: seq<Dsd>)
    ensures ([d] + rest)[0] == d && ([d] + rest)[1..] == rest
  {
  }

  // The counting pass over n blocks: fragments of the data plus one tuple per block.
  function Counted(sgl: seq<Dsd>, blk: nat, n: nat): nat {
    match CountFrom(sgl, blk, Total(sgl), START) case None => n case Some(frags) => frags + n
  }

  /** The descriptors counted beforehand are the descriptors the walk emits, block by block. */
  lemma CountedIsEmitted(sgl: seq<Dsd>, prot: seq<Dsd>, blk: nat, n: nat) returns (ds: seq<Dsd>)
    requires Mapped(sgl) && blk > 0 && Total(sgl) == Whole(n, blk)
    requires TupleSegments(prot) && Total(prot) >= 8 * n
    ensures Stream(sgl, prot, blk, ds) && |ds| == Counted(sgl, blk, n)
    ensures BlockByBlock(ds, AllBytes(sgl), AllBytes(prot), blk, blk)
  {
    StartAccounted(sgl, blk);
    ProtStart(prot);
    WalkEmitsBlocks(sgl, prot, blk, Total(sgl), START, ProtCursor(0, 0), n);
    PassesAgree(sgl, prot, blk, Total(sgl), START, ProtCursor(0, 0), n);
    ds := Emission(sgl, prot, blk, Total(sgl), START, ProtCursor(0, 0)).value;
  }

  lemma ProtStart(prot: seq<Dsd>)
    requires TupleSegments(prot)
    ensures OnProt(prot, ProtCursor(0, 0)) && ProtRest(prot, ProtCursor(0, 0)) == AllBytes(prot)
    ensures |AllBytes(prot)| == Total(prot)
  {
    TailFromStart(prot, 0);
    AllBytesLength(prot);
    assert prot[0..] == prot;
  }

  /** The driver adds the two counts in sixteen bits. */
  lemma SumWraps(a: nat, b: nat)
    ensures (a % TWO16 + b % TWO16) % TWO16 == (a + b) % TWO16
  {
    var q, q' := a / TWO16, b / TWO16;
    assert a + b == (q + q') * TWO16 + (a % TWO16 + b % TWO16);
  }

  /** A fragment ends a segment or a block, so few segments and blocks mean few descriptors. */
  lemma {:induction false} FragmentsBounded(sgl: seq<Dsd>, blk: nat, tot: nat, c: Cursor, n: nat)
    requires Accounted(sgl, blk, tot, c) && c.numBytes + Whole(n, blk) == tot
    ensures CountFrom(sgl, blk, tot, c).Some? && CountFrom(sgl, blk, tot, c).value <= |sgl| - c.curSg + n
    decreases Left(sgl, c)
  {
    BlocksToCome(sgl, blk, tot, c, n);
    if n > 0 {
      var t := Take(sgl, blk, c);
      FragmentsBounded(sgl, blk, tot, t.next, if t.partial then n else n - 1);
    }
  }

  /** Every block to come takes at least one fragment. */
  lemma {:induction false} BlocksBelowFragments(sgl: seq<Dsd>, blk: nat, tot: nat, c: Cursor, n: nat)
    requires Accounted(sgl, blk, tot, c) && c.numBytes + Whole(n, blk) == tot
    ensures CountFrom(sgl, blk, tot, c).Some? && n <= CountFrom(sgl, blk, tot, c).value
    decreases Left(sgl, c)
  {
    BlocksToCome(sgl, blk, tot, c, n);
    if n > 0 {
      var t := Take(sgl, blk, c);
      BlocksBelowFragments(sgl, blk, tot, t.next, if t.partial then n else n - 1);
    }
  }

  /**
   What a caller can tell from the segment and block counts alone: from 32768 blocks on the count never
   has sixteen bits; while twice the blocks and the segments together stay below 65536 it always has.
   */
  lemma CountedBetween(sgl: seq<Dsd>, blk: nat, n: nat)
    requires Mapped(sgl) && blk > 0 && Total(sgl) == Whole(n, blk)
    ensures 2 * n <= Counted(sgl, blk, n) <= |sgl| + 2 * n
    ensures n >= 0x8000 ==> Counted(sgl, blk, n) >= TWO16
    ensures |sgl| + 2 * n < TWO16 ==> Counted(sgl, blk, n) < TWO16
  {
    StartAccounted(sgl, blk);
    BlocksBelowFragments(sgl, blk, Total(sgl), START, n);
    FragmentsBounded(sgl, blk, Total(sgl), START, n);
  }

  method CountBlocks(tot: nat, blk: nat) returns (n: nat)
    requires blk > 0 && tot % blk == 0
    ensures Whole(n, blk) == tot
  {
    n := tot / blk;
    WholeIsProduct(n, blk);
  }

  /**
   Both passes of a no-bundling DIF command, on every transfer: count in sixteen bits, then walk with that
   count.  If the true count has sixteen bits, following the chain gives, byte by byte, each block followed
   by its tuple.  A completed walk keeps every list inside its pool element exactly in that case.
   */
  method BuildNoBundling(sgl: seq<Dsd>, prot: seq<Dsd>, blk: nat, pool: Pool, head: Dsd, supply: seq<nat>, ghost n: nat)
    returns (ok: bool, tot: u16, pool': Pool, head': Dsd, lists: seq<nat>, ghost ds: seq<Dsd>)
    requires Mapped(sgl) && blk > 0 && Total(sgl) % blk == 0 && Unused(pool, supply)
    requires Total(sgl) == Whole(n, blk) && TupleSegments(prot) && Total(prot) >= 8 * n
    ensures Stream(sgl, prot, blk, ds) && |ds| == Counted(sgl, blk, n) && tot == |ds| % TWO16
    ensures AllBytes(ds) == Interleaved(AllBytes(sgl), AllBytes(prot), blk, blk)
    ensures |ds| < TWO16 ==> (ok <==> CalcDsdLists(tot) <= |supply|)
    ensures |ds| < TWO16 && ok ==> Found(pool', head', lists, ds) && Untouched(pool, pool', lists)
    ensures ok ==> (FitElements(pool', lists) <==> |ds| < TWO16)
    ensures ok ==> (Underflows(Fresh(pool, head, supply, tot), ds) <==> |ds| >= TWO16)
  {
    ds := CountedIsEmitted(sgl, prot, blk, n);
    BlocksAreInterleaved(ds, AllBytes(sgl), AllBytes(prot), blk, blk);
    tot := CountInWords(sgl, blk, n);
    ok, pool', head', lists := WalkNoDifb(sgl, prot, blk, tot, pool, head, supply, ds);
    ToldInWords(|ds|, tot);
    if |ds| == tot { ExactWalk(pool, head, supply, ds); }
    if ok {
      WalkFitsIffCountFits(pool, head, supply, ds, tot);
      if |ds| == tot { RightWalk(pool, head, supply, ds, tot); }
    }
  }

  /** The counting pass: fragments plus blocks, in sixteen bits. */
  method CountInWords(sgl: seq<Dsd>, blk: nat, ghost n: nat) returns (tot: u16)
    requires Mapped(sgl) && blk > 0 && Total(sgl) % blk == 0 && Total(sgl) == Whole(n, blk)
    ensures tot == Counted(sgl, blk, n) % TWO16
  {
    var nseg := CountFragments(sgl, blk);
    var blocks := CountBlocks(Total(sgl), blk);
    WholeInjective(blocks, n, blk);
    SumWraps(nseg, blocks);
    tot := (nseg % TWO16 + blocks % TWO16) % TWO16;
  }

  // ---------- a transfer that is too large ----------

  lemma {:induction false} OneSegmentCounts(a: nat, blk: nat, n: nat, done: nat)
    requires blk > 0 && done <= n
    ensures var c := if done == n then Cursor(if n == 0 then 0 else 1, 0, Whole(done, blk), 0)
                     else Cursor(0, Whole(done, blk), Whole(done, blk), 0);
            n > 0 ==> CountFrom([Dsd(a, Whole(n, blk))], blk, Whole(n, blk), c) == Some(n - done)
    decreases n - done
  {
    if done < n {
      WholeGrows(done, n, blk);
      OneSegmentCounts(a, blk, n, done + 1);
      if done + 1 < n { WholeGrows(done + 1, n, blk); }
    }
  }

  lemma {:induction false} WholeGrows(m: nat, n: nat, blk: nat)
    requires m < n && blk > 0
    ensures Whole(m, blk) + blk == Whole(m + 1, blk) <= Whole(n, blk)
  {
    if m + 1 < n { WholeGrows(m, n - 1, blk); }
  }

  /**
   A transfer the host template admits: one segment of 32768 blocks of 512 bytes.  The walker is told
   zero descriptors; its counter goes below zero at the first one, and whenever the walk completes some
   list does not fit its element.
   */
  lemma LargeTransferDoesNotFit(a: nat, prot: seq<Dsd>, pool: Pool, head: Dsd, supply: seq<nat>) returns (ds: seq<Dsd>)
    requires TupleSegments(prot) && Total(prot) >= 8 * 0x8000 && Unused(pool, supply)
    ensures var sgl := [Dsd(a, 0x100_0000)];
            && Mapped(sgl) && Total(sgl) == 0x8000 * 512
            && Stream(sgl, prot, 512, ds) && |ds| == TWO16 && |ds| % TWO16 == 0
    ensures supply != [] ==> Underflows(Fresh(pool, head, supply, 0), ds)
    ensures EmitAll(Fresh(pool, head, supply, 0), ds).Some? ==>
              var z := Closed(EmitAll(Fresh(pool, head, supply, 0), ds).value); !FitElements(z.pool, z.lists)
  {
    var sgl := [Dsd(a, 0x100_0000)];
    WholeIsProduct(0x8000, 512);
    assert sgl[1..] == [];
    OneSegmentCounts(a, 512, 0x8000, 0);
    ds := CountedIsEmitted(sgl, prot, 512, 0x8000);
    if EmitAll(Fresh(pool, head, supply, 0), ds).Some? { WalkFitsIffCountFits(pool, head, supply, ds, 0); }
  }

  lemma {:induction false} WholeInjective(m: nat, n: nat, blk: nat)
    requires blk > 0 && Whole(m, blk) == Whole(n, blk)
    ensures m == n
  {
    if m > 0 && n > 0 { WholeInjective(m - 1, n - 1, blk); }
  }
}
