/** The GNU hash section: its builder, which permutes the dynamic symbol table,
    and the lookup a dynamic loader performs on the result. */
module GnuHash {
  import opened ElfSymbols
  import opened SymbolTables
  import opened Bits

  const CLASS_BITS: nat := 64
  const BLOOM_SHIFT_DIVISOR: nat := 64 // hash >> bloom_shift, bloom_shift = 6

  /** The section: header words, bloom words (each the set of its one bits),
      buckets and chain. */
  datatype Section = Section(symOffset: nat, bloom: seq<set<nat>>, buckets: seq<nat>, chain: seq<nat>)

  function HashOf(name: string): (h: nat)
    ensures h < 0x1_0000_0000
  {
    if name == "" then 5381
    else (HashOf(name[..|name| - 1]) * 33 + (name[|name| - 1] as int) % 256) % 0x1_0000_0000
  }

  function Pow33(n: nat): nat { if n == 0 then 1 else 33 * Pow33(n - 1) }

  /** Every byte times 33 to the number of bytes behind it. */
  function Weighted(name: string): nat {
    if name == "" then 0 else name[0] as int % 256 * Pow33(|name| - 1) + Weighted(name[1..])
  }

  lemma {:induction false} WeightedSnoc(name: string, c: char)
    ensures Weighted(name + [c]) == 33 * Weighted(name) + c as int % 256
  {
    var t := name + [c];
    if name == "" {
      assert t[1..] == "" && Weighted("") == 0 && Pow33(0) == 1;
    } else {
      assert t[1..] == name[1..] + [c] && t[0] == name[0];
      WeightedSnoc(name[1..], c);
      ScaleUp(name[0] as int % 256, Pow33(|name| - 1), Weighted(name[1..]));
    }
  }

  lemma ScaleUp(b: nat, p: nat, w: nat)
    ensures b * (33 * p) + 33 * w == 33 * (b * p + w)
  {}

  /** The hash in closed form, as loaders compute it. */
  lemma {:induction false} HashIsWeighted(name: string)
    ensures HashOf(name) == (5381 * Pow33(|name|) + Weighted(name)) % 0x1_0000_0000
  {
    if name != "" {
      var init, c := name[..|name| - 1], name[|name| - 1];
      assert name == init + [c];
      HashIsWeighted(init);
      WeightedSnoc(init, c);
      WrapsOnce(5381 * Pow33(|init|) + Weighted(init), c as int % 256);
    }
  }

  lemma WrapsOnce(v: nat, b: nat)
    ensures (v % 0x1_0000_0000 * 33 + b) % 0x1_0000_0000 == (33 * v + b) % 0x1_0000_0000
  {
    var q, r := v / 0x1_0000_0000, v % 0x1_0000_0000;
    assert 33 * v + b == 0x1_0000_0000 * (33 * q) + (r * 33 + b);
  }

  /** elf_gnu_hash */
  method ElfGnuHash(name: string) returns (h: nat)
    ensures h == HashOf(name)
  {
    h := 5381;
    for i := 0 to |name|
      invariant h == HashOf(name[..i])
    {
      assert name[..i + 1][..i] == name[..i];
      h := (h * 33 + (name[i] as int) % 256) % 0x1_0000_0000;
    }
    assert name[..|name|] == name;
  }

  predicate BloomHas(bloom: seq<set<nat>>, h: nat) {
    && |bloom| > 0
    && h % CLASS_BITS in bloom[Mod(h / CLASS_BITS, |bloom|)]
    && (h / BLOOM_SHIFT_DIVISOR) % CLASS_BITS in bloom[Mod(h / CLASS_BITS, |bloom|)]
  }

  function BucketFor(h: nat, nb: nat): (b: nat)
    requires nb > 0
    ensures b < nb
  {
    h % nb
  }

  function ChainWord(h: nat, last: bool): nat { h - h % 2 + if last then 1 else 0 }

  /** `starts` cuts the defined symbols into their buckets, in bucket order. */
  ghost predicate Cut(starts: seq<nat>, sec: Section, total: nat) {
    && |starts| == |sec.buckets| + 1 && |sec.buckets| > 0
    && starts[0] == sec.symOffset && starts[|sec.buckets|] == total
    && forall b, c :: 0 <= b < c < |starts| ==> starts[b] <= starts[c]
  }

  ghost predicate BucketOk(sec: Section, tab: seq<Entry>, b: nat, start: nat, end: nat)
    requires b < |sec.buckets|
  {
    && sec.symOffset <= start <= end <= |tab| && |tab| <= sec.symOffset + |sec.chain|
    && sec.buckets[b] == (if start == end then 0 else start)
    && forall k :: start <= k < end ==>
         && Defined(tab[k].attr) && BucketFor(HashOf(tab[k].name), |sec.buckets|) == b
         && sec.chain[k - sec.symOffset] == ChainWord(HashOf(tab[k].name), k + 1 == end)
         && BloomHas(sec.bloom, HashOf(tab[k].name))
  }

  /** What the format promises its readers. */
  ghost predicate Readable(sec: Section, tab: seq<Entry>) {
    && 0 < sec.symOffset && |sec.buckets| > 0 && PowerOfTwo(|sec.bloom|)
    && (forall k :: 0 <= k < sec.symOffset && k < |tab| ==> !Defined(tab[k].attr))
    && exists starts: seq<nat> :: CutInto(starts, sec, tab)
  }

  ghost predicate CutInto(starts: seq<nat>, sec: Section, tab: seq<Entry>) {
    && Cut(starts, sec, |tab|)
    && forall b :: 0 <= b < |sec.buckets| ==> BucketOk(sec, tab, b, starts[b], starts[b + 1])
  }

  lemma BucketOfPosition(starts: seq<nat>, sec: Section, total: nat, k: nat) returns (b: nat)
    requires Cut(starts, sec, total) && sec.symOffset <= k < total
    ensures b < |sec.buckets| && starts[b] <= k < starts[b + 1]
  {
    b := |sec.buckets|;
    while starts[b] > k
      invariant b <= |sec.buckets| && (b < |sec.buckets| ==> k < starts[b + 1])
      invariant b == |sec.buckets| ==> starts[b] > k
      decreases b
    {
      b := b - 1;
    }
  }

  /** A defined symbol can only be in the bucket its name hashes to, and the bloom filter lets it pass. */
  lemma OnlyInItsBucket(starts: seq<nat>, sec: Section, tab: seq<Entry>, i: nat)
    requires CutInto(starts, sec, tab) && i < |tab| && Defined(tab[i].attr)
    requires forall k :: 0 <= k < sec.symOffset && k < |tab| ==> !Defined(tab[k].attr)
    ensures var h := HashOf(tab[i].name);
            starts[BucketFor(h, |sec.buckets|)] <= i < starts[BucketFor(h, |sec.buckets|) + 1] && BloomHas(sec.bloom, h)
  {
    var b := BucketOfPosition(starts, sec, |tab|, i);
    assert BucketOk(sec, tab, b, starts[b], starts[b + 1]);
  }

  /** What a reader finds of a defined symbol: both its bits in its bloom word, its bucket
      beginning at it or before, and its hash, but for the low bit, in its chain word. */
  lemma ReadableShows(sec: Section, tab: seq<Entry>, i: nat)
    requires Readable(sec, tab) && i < |tab| && Defined(tab[i].attr)
    ensures var h, word := HashOf(tab[i].name), sec.bloom[Mod(HashOf(tab[i].name) / 64, |sec.bloom|)];
            && h % 64 in word && h / 64 % 64 in word
            && sec.symOffset <= sec.buckets[h % |sec.buckets|] <= i < sec.symOffset + |sec.chain|
            && sec.chain[i - sec.symOffset] / 2 == h / 2
            && forall c :: sec.buckets[h % |sec.buckets|] - sec.symOffset <= c < i - sec.symOffset ==> sec.chain[c] % 2 == 0
  {
    hide HashOf, BucketOk;
    var starts: seq<nat> :| CutInto(starts, sec, tab);
    OnlyInItsBucket(starts, sec, tab, i);
    var b := BucketFor(HashOf(tab[i].name), |sec.buckets|);
    assert BucketOk(sec, tab, b, starts[b], starts[b + 1]);
    BucketShows(sec, tab, b, starts[b], starts[b + 1], i);
  }

  lemma BucketShows(sec: Section, tab: seq<Entry>, b: nat, start: nat, end: nat, i: nat)
    requires b < |sec.buckets| && BucketOk(sec, tab, b, start, end) && start <= i < end
    ensures BloomHas(sec.bloom, HashOf(tab[i].name)) && sec.buckets[b] == start && sec.symOffset <= start
    ensures i < sec.symOffset + |sec.chain| && sec.chain[i - sec.symOffset] / 2 == HashOf(tab[i].name) / 2
    ensures forall c :: start - sec.symOffset <= c < i - sec.symOffset ==> sec.chain[c] % 2 == 0
  {
    hide HashOf, BloomHas, BucketFor;
    forall c | start - sec.symOffset <= c < i - sec.symOffset ensures sec.chain[c] % 2 == 0 {
      var k := c + sec.symOffset;
      assert sec.chain[k - sec.symOffset] == ChainWord(HashOf(tab[k].name), k + 1 == end);
    }
  }

  /** The header's first hashed index says exactly where the defined symbols begin. */
  lemma OffsetIsForced(sec: Section, s: nat, tab: seq<Entry>)
    requires Readable(sec, tab) && Readable(sec.(symOffset := s), tab)
    ensures s == sec.symOffset
  {
    hide BucketOk;
    DefinedFrom(sec, tab);
    DefinedFrom(sec.(symOffset := s), tab);
    var k := if s < sec.symOffset then s else sec.symOffset;
    assert k < |tab| ==> (Defined(tab[k].attr) <==> k >= s);
  }

  lemma DefinedFrom(sec: Section, tab: seq<Entry>)
    requires Readable(sec, tab)
    ensures sec.symOffset <= |tab| && forall k :: 0 <= k < |tab| ==> (Defined(tab[k].attr) <==> k >= sec.symOffset)
  {
    var starts: seq<nat> :| CutInto(starts, sec, tab);
    forall k | sec.symOffset <= k < |tab| ensures Defined(tab[k].attr) {
      var b := BucketOfPosition(starts, sec, |tab|, k);
      assert BucketOk(sec, tab, b, starts[b], starts[b + 1]);
    }
  }

  ghost predicate Absent(tab: seq<Entry>, name: string) {
    forall i :: 0 <= i < |tab| && Defined(tab[i].attr) ==> tab[i].name != name
  }

  /** What a loader finds in any section, 0 for nothing; a chain that leaves the
      section or the table counts as nothing. */
  function Found(sec: Section, tab: seq<Entry>, name: string): nat {
    var h := HashOf(name);
    if |sec.buckets| == 0 || |sec.bloom| == 0 then 0
    else if h % 64 !in sec.bloom[Mod(h / 64, |sec.bloom|)] || h / 64 % 64 !in sec.bloom[Mod(h / 64, |sec.bloom|)] then 0
    else FoundFrom(sec, tab, name, sec.buckets[h % |sec.buckets|])
  }

  function FoundFrom(sec: Section, tab: seq<Entry>, name: string, k: nat): nat
    decreases |tab| - k
  {
    if k < sec.symOffset || k >= |tab| || k - sec.symOffset >= |sec.chain| then 0
    else
      var word := sec.chain[k - sec.symOffset];
      if word / 2 == HashOf(name) / 2 && tab[k].name == name then k
      else if word % 2 == 1 then 0
      else FoundFrom(sec, tab, name, k + 1)
  }

  /** A header index above the first defined symbol hides that symbol. */
  lemma LateOffsetHides(sec: Section, s: nat, tab: seq<Entry>)
    requires Readable(sec, tab) && sec.symOffset < s && sec.symOffset < |tab|
    ensures var e := tab[sec.symOffset];
            Defined(e.attr) && Found(sec.(symOffset := s), tab, e.name) != sec.symOffset
    ensures var e := tab[sec.symOffset];
            (forall i :: 0 <= i < |tab| && i != sec.symOffset ==> tab[i].name != e.name) ==>
              Found(sec.(symOffset := s), tab, e.name) == 0
  {
    var starts: seq<nat> :| CutInto(starts, sec, tab);
    var i := sec.symOffset;
    DefinedFrom(sec, tab);
    OnlyInItsBucket(starts, sec, tab, i);
    var b := BucketFor(HashOf(tab[i].name), |sec.buckets|);
    assert BucketOk(sec, tab, b, starts[b], starts[b + 1]);
    assert starts[0] <= starts[b];
  }

  /** The loader's lookup: bloom test with a masked word index, bucket, then the contiguous chain up to
      the word with its low bit set. It finds a defined symbol of that name
      whenever there is one. */
  method Lookup(sec: Section, tab: seq<Entry>, name: string) returns (k: nat)
    requires Readable(sec, tab)
    ensures k == Found(sec, tab, name)
    ensures k != 0 ==> k < |tab| && Defined(tab[k].attr) && tab[k].name == name
    ensures k == 0 ==> Absent(tab, name)
  {
    var h := ElfGnuHash(name);
    ghost var starts: seq<nat> :| CutInto(starts, sec, tab);
    forall i | 0 <= i < |tab| && Defined(tab[i].attr) && tab[i].name == name
      ensures starts[BucketFor(h, |sec.buckets|)] <= i < starts[BucketFor(h, |sec.buckets|) + 1] && BloomHas(sec.bloom, h)
    {
      OnlyInItsBucket(starts, sec, tab, i);
    }
    MaskIsModulo(h / CLASS_BITS, |sec.bloom|);
    var word := sec.bloom[And(h / CLASS_BITS, |sec.bloom| - 1)];
    if h % CLASS_BITS !in word || (h / BLOOM_SHIFT_DIVISOR) % CLASS_BITS !in word {
      return 0;
    }
    var b := h % |sec.buckets|;
    assert BucketOk(sec, tab, b, starts[b], starts[b + 1]);
    if sec.buckets[b] < sec.symOffset {
      return 0;
    }
    k := ScanChain(sec, tab, name, h, b, starts[b], starts[b + 1]);
  }

  method ScanChain(sec: Section, tab: seq<Entry>, name: string, h: nat, b: nat, ghost start: nat, ghost end: nat)
    returns (k: nat)
    requires b < |sec.buckets| && BucketOk(sec, tab, b, start, end) && start < end && h == HashOf(name)
    requires 0 < sec.symOffset
    ensures k == FoundFrom(sec, tab, name, sec.buckets[b])
    ensures k != 0 ==> k < |tab| && Defined(tab[k].attr) && tab[k].name == name
    ensures k == 0 ==> forall i :: start <= i < end ==> tab[i].name != name
  {
    hide HashOf, BloomHas, BucketFor;
    k := sec.buckets[b];
    while true
      invariant start <= k < end && forall i :: start <= i < k ==> tab[i].name != name
      invariant FoundFrom(sec, tab, name, k) == FoundFrom(sec, tab, name, sec.buckets[b])
      decreases end - k
    {
      var word := sec.chain[k - sec.symOffset];
      var here := HashOf(tab[k].name);
      if word / 2 == h / 2 && tab[k].name == name {
        return;
      }
      assert word == ChainWord(here, k + 1 == end);
      if word % 2 == 1 {
        return 0;
      }
      k := k + 1;
    }
  }

  // ---- building: a permutation grown one symbol at a time -----------------

  /** q holds copies of distinct entries; `tr` says where each went, `inv` where each came from. */
  ghost predicate Copied(tab: seq<Entry>, q: seq<Entry>, tr: seq<nat>, inv: seq<nat>)
    ensures Copied(tab, q, tr, inv) ==> |tr| == |tab| && |inv| == |q|
  {
    && |tr| == |tab| && |inv| == |q|
    && forall p :: 0 <= p < |q| ==> inv[p] < |tab| && tr[inv[p]] == p && q[p] == tab[inv[p]]
  }

  ghost predicate Done(tr: seq<nat>, inv: seq<nat>, j: nat)
    requires j < |tr|
  {
    tr[j] < |inv| && inv[tr[j]] == j
  }

  lemma {:induction false} Pigeonhole(s: seq<nat>, n: nat)
    requires forall i :: 0 <= i < |s| ==> s[i] < n
    requires forall i, j :: 0 <= i < j < |s| ==> s[i] != s[j]
    ensures |s| <= n
  {
    if s == [] {
      return;
    }
    var top: nat := n - 1 - s[0];
    if exists i :: 0 <= i < |s| && s[i] == n - 1 {
      var i :| 0 <= i < |s| && s[i] == n - 1;
      Pigeonhole(s[..i] + s[i + 1..], n - 1);
    } else {
      Pigeonhole(s, n - 1);
    }
  }

  lemma CopyStep(tab: seq<Entry>, q: seq<Entry>, tr: seq<nat>, inv: seq<nat>, cur: nat)
    requires Copied(tab, q, tr, inv) && cur < |tab| && !Done(tr, inv, cur)
    ensures |q| < |tab|
    ensures Copied(tab, q + [tab[cur]], tr[cur := |q|], inv + [cur])
    ensures forall j :: 0 <= j < |tab| ==> (Done(tr[cur := |q|], inv + [cur], j) <==> Done(tr, inv, j) || j == cur)
  {
    assert cur !in inv;
    Pigeonhole(inv + [cur], |tab|);
  }

  lemma NothingCopied(tab: seq<Entry>, tr: seq<nat>)
    requires |tr| == |tab|
    ensures Copied(tab, [], tr, []) && forall j :: 0 <= j < |tab| ==> !Done(tr, [], j)
  {}

  lemma CopiedFits(tab: seq<Entry>, q: seq<Entry>, tr: seq<nat>, inv: seq<nat>)
    requires Copied(tab, q, tr, inv)
    ensures |inv| == |q| <= |tab| == |tr|
  {
    Pigeonhole(inv, |tab|);
  }

  lemma CopiedAll(tab: seq<Entry>, q: seq<Entry>, tr: seq<nat>, inv: seq<nat>)
    requires Copied(tab, q, tr, inv) && forall j :: 0 <= j < |tab| ==> Done(tr, inv, j)
    ensures |q| == |tab|
  {
    Pigeonhole(inv, |tab|);
    forall j | 0 <= j < |tab|
      ensures tr[j] < |q| && inv[tr[j]] == j
    {
      assert Done(tr, inv, j);
    }
    Pigeonhole(tr, |q|);
  }

  // ---- phase 1: hashes, and the undefined symbols copied in order -----------

  method CopyUndefined(tab: seq<Entry>) returns (q: seq<Entry>, tr: seq<nat>, hash: seq<nat>, ghost inv: seq<nat>)
    ensures Copied(tab, q, tr, inv) && |hash| == |tab|
    ensures forall j :: 0 <= j < |tab| ==> (Done(tr, inv, j) <==> !Defined(tab[j].attr))
    ensures forall j :: 0 <= j < |tab| && Defined(tab[j].attr) ==> hash[j] == HashOf(tab[j].name)
    ensures forall j, k :: 0 <= j < k < |tab| && !Defined(tab[j].attr) && !Defined(tab[k].attr) ==> tr[j] < tr[k]
    ensures |q| == Undefined(tab)
  {
    hide HashOf, Copied, Done, Defined;
    NothingCopied(tab, seq(|tab|, _ => 0));
    q, inv, tr, hash := [], [], seq(|tab|, _ => 0), seq(|tab|, _ => 0);
    for i := 0 to |tab|
      invariant Copied(tab, q, tr, inv) && |hash| == |tab| && |q| == Undefined(tab[..i])
      invariant forall j :: 0 <= j < |tab| ==> (Done(tr, inv, j) <==> j < i && !Defined(tab[j].attr))
      invariant forall j :: 0 <= j < i && Defined(tab[j].attr) ==> hash[j] == HashOf(tab[j].name)
      invariant forall j, k :: 0 <= j < k < i && !Defined(tab[j].attr) && !Defined(tab[k].attr) ==> tr[j] < tr[k]
      invariant forall j :: 0 <= j < i && !Defined(tab[j].attr) ==> tr[j] < |q|
    {
      assert tab[..i + 1][..i] == tab[..i];
      if !Defined(tab[i].attr) {
        CopyStep(tab, q, tr, inv, i);
        tr := tr[i := |q|];
        q, inv := q + [tab[i]], inv + [i];
      } else {
        var h := ElfGnuHash(tab[i].name);
        hash := hash[i := h];
      }
    }
    assert tab[..|tab|] == tab;
  }

  function Undefined(tab: seq<Entry>): (n: nat)
    ensures n <= |tab|
  {
    if tab == [] then 0
    else Undefined(tab[..|tab| - 1]) + if Defined(tab[|tab| - 1].attr) then 0 else 1
  }

  // ---- phase 2: one linked list per bucket, in symbol order -----------------

  /** The bucket of each defined symbol, -1 for an undefined one. */
  ghost predicate Assigned(tab: seq<Entry>, bk: seq<int>, nb: nat)
    ensures Assigned(tab, bk, nb) ==> nb > 0 && |bk| == |tab|
  {
    && nb > 0 && |bk| == |tab|
    && forall j :: 0 <= j < |tab| ==> bk[j] == if Defined(tab[j].attr) then BucketFor(HashOf(tab[j].name), nb) else -1
  }

  lemma AssignedFrom(tab: seq<Entry>, bk: seq<int>, nb: nat)
    requires nb > 0 && |bk| == |tab|
    requires forall j :: 0 <= j < |tab| ==> bk[j] == if Defined(tab[j].attr) then BucketFor(HashOf(tab[j].name), nb) else -1
    ensures Assigned(tab, bk, nb) && forall j :: 0 <= j < |bk| ==> (bk[j] == -1 || 0 <= bk[j] < nb)
    ensures forall j :: 0 <= j < |bk| && !Defined(tab[j].attr) ==> bk[j] == -1
  {}

  datatype Lists = Lists(first: seq<int>, last: seq<int>, next: seq<nat>)

  /** The lists hold exactly the first `i` symbols, each bucket's in increasing order. */
  ghost predicate Linked(bk: seq<int>, nb: nat, ls: Lists, i: nat)
    ensures Linked(bk, nb, ls, i) ==> |ls.first| == |ls.last| == nb && |ls.next| == |bk|
  {
    && i <= |bk| && |ls.first| == |ls.last| == nb && |ls.next| == |bk|
    && (forall b :: 0 <= b < nb ==> BucketLinked(bk, b, ls.first[b], ls.last[b], i))
    && (forall j :: 0 <= j < i && 0 <= bk[j] < nb && j < ls.last[bk[j]] ==>
          && j < ls.next[j] <= ls.last[bk[j]] && bk[ls.next[j]] == bk[j]
          && forall k :: j < k < ls.next[j] ==> bk[k] != bk[j])
  }

  ghost predicate BucketLinked(bk: seq<int>, b: nat, first: int, last: int, i: nat)
    requires i <= |bk|
  {
    if first == -1 then forall j :: 0 <= j < i ==> bk[j] != b
    else
      && 0 <= first <= last < i && bk[first] == b && bk[last] == b
      && forall j :: 0 <= j < i && bk[j] == b ==> first <= j <= last
  }

  /** One iteration: symbol i goes to the end of its bucket's list. */
  function LinkOne(ls: Lists, i: nat, b: nat): Lists
    requires b < |ls.first| == |ls.last| && i < |ls.next|
    requires ls.first[b] != -1 ==> 0 <= ls.last[b] < |ls.next|
  {
    if ls.first[b] == -1 then Lists(ls.first[b := i], ls.last[b := i], ls.next)
    else Lists(ls.first, ls.last[b := i], ls.next[ls.last[b] := i])
  }

  lemma LinkOneBucket(bk: seq<int>, nb: nat, ls: Lists, i: nat, c: nat)
    requires Linked(bk, nb, ls, i) && i < |bk| && 0 <= bk[i] < nb && c < nb
    ensures BucketLinked(bk, bk[i], ls.first[bk[i]], ls.last[bk[i]], i)
    ensures var r := LinkOne(ls, i, bk[i]);
            BucketLinked(bk, c, r.first[c], r.last[c], i + 1)
  {
    assert BucketLinked(bk, c, ls.first[c], ls.last[c], i);
    assert BucketLinked(bk, bk[i], ls.first[bk[i]], ls.last[bk[i]], i);
  }

  lemma LinkOneNext(bk: seq<int>, nb: nat, ls: Lists, i: nat, j: nat)
    requires Linked(bk, nb, ls, i) && i < |bk| && 0 <= bk[i] < nb
    requires BucketLinked(bk, bk[i], ls.first[bk[i]], ls.last[bk[i]], i)
    requires j <= i && 0 <= bk[j] < nb && j < LinkOne(ls, i, bk[i]).last[bk[j]]
    ensures var r := LinkOne(ls, i, bk[i]);
            && j < r.next[j] <= r.last[bk[j]] <= i && bk[r.next[j]] == bk[j]
            && forall k :: j < k < r.next[j] ==> bk[k] != bk[j]
  {
    assert BucketLinked(bk, bk[j], ls.first[bk[j]], ls.last[bk[j]], i);
  }

  lemma LinkOneKeeps(bk: seq<int>, nb: nat, ls: Lists, i: nat)
    requires Linked(bk, nb, ls, i) && i < |bk| && 0 <= bk[i] < nb
    ensures BucketLinked(bk, bk[i], ls.first[bk[i]], ls.last[bk[i]], i)
    ensures Linked(bk, nb, LinkOne(ls, i, bk[i]), i + 1)
  {
    hide BucketLinked;
    LinkOneBucket(bk, nb, ls, i, bk[i]);
    var r := LinkOne(ls, i, bk[i]);
    forall c | 0 <= c < nb
      ensures BucketLinked(bk, c, r.first[c], r.last[c], i + 1)
    {
      LinkOneBucket(bk, nb, ls, i, c);
    }
    forall j | 0 <= j < i + 1 && 0 <= bk[j] < nb && j < r.last[bk[j]]
      ensures && j < r.next[j] <= r.last[bk[j]] <= i && bk[r.next[j]] == bk[j]
              && forall k :: j < k < r.next[j] ==> bk[k] != bk[j]
    {
      LinkOneNext(bk, nb, ls, i, j);
    }
  }

  lemma SkipOneKeeps(bk: seq<int>, nb: nat, ls: Lists, i: nat)
    requires Linked(bk, nb, ls, i) && i < |bk| && bk[i] < 0
    ensures Linked(bk, nb, ls, i + 1)
  {
    forall b | 0 <= b < nb
      ensures BucketLinked(bk, b, ls.first[b], ls.last[b], i + 1)
    {
      assert BucketLinked(bk, b, ls.first[b], ls.last[b], i);
    }
  }

  lemma NoneLinked(bk: seq<int>, nb: nat, ls: Lists)
    requires |ls.first| == |ls.last| == nb && |ls.next| == |bk| && forall b :: 0 <= b < nb ==> ls.first[b] == -1
    ensures Linked(bk, nb, ls, 0)
  {}

  method LinkBuckets(bk: seq<int>, nb: nat) returns (ls: Lists)
    requires nb > 0 && forall j :: 0 <= j < |bk| ==> -1 <= bk[j] < nb
    ensures Linked(bk, nb, ls, |bk|)
  {
    hide Linked;
    ls := Lists(seq(nb, _ => -1), seq(nb, _ => 0), seq(|bk|, _ => 0));
    NoneLinked(bk, nb, ls);
    for i := 0 to |bk|
      invariant Linked(bk, nb, ls, i)
    {
      if bk[i] >= 0 {
        LinkOneKeeps(bk, nb, ls, i);
        ls := LinkOne(ls, i, bk[i]);
      } else {
        SkipOneKeeps(bk, nb, ls, i);
      }
    }
  }

  // ---- phase 3: buckets, chains and bloom words -----------------------------

  function BloomAdd(bloom: seq<set<nat>>, h: nat): (r: seq<set<nat>>)
    requires |bloom| > 0
    ensures |r| == |bloom| && BloomHas(r, h)
    ensures forall g :: BloomHas(bloom, g) ==> BloomHas(r, g)
  {
    var w := Mod(h / CLASS_BITS, |bloom|);
    bloom[w := bloom[w] + {h % CLASS_BITS, (h / BLOOM_SHIFT_DIVISOR) % CLASS_BITS}]
  }

  /** `sec` is `was` with more bloom bits, other chain words from `from` on, and another bucket b. */
  ghost predicate Grown(was: Section, sec: Section, from: nat, b: nat) {
    && sec.symOffset == was.symOffset && |sec.buckets| == |was.buckets| && |sec.chain| == |was.chain|
    && |sec.bloom| == |was.bloom| && (forall g :: BloomHas(was.bloom, g) ==> BloomHas(sec.bloom, g))
    && (forall c :: 0 <= c < |sec.buckets| && c != b ==> sec.buckets[c] == was.buckets[c])
    && (forall i :: 0 <= i < |sec.chain| && i < from - sec.symOffset ==> sec.chain[i] == was.chain[i])
  }

  lemma BucketOkGrows(was: Section, sec: Section, q0: seq<Entry>, q: seq<Entry>, b: nat, c: nat, start: nat, end: nat)
    requires c < |was.buckets| && c != b && BucketOk(was, q0, c, start, end) && Grown(was, sec, |q0|, b)
    requires |q0| <= |q| <= sec.symOffset + |sec.chain| && q[..|q0|] == q0
    ensures BucketOk(sec, q, c, start, end)
  {
    hide HashOf, BloomHas, BucketFor, ChainWord;
    forall k | start <= k < end ensures q[k] == q0[k] {
      assert q[..|q0|][k] == q0[k];
    }
  }

  /** A bucket still being filled: no word carries the end mark yet. */
  ghost predicate BucketOpen(sec: Section, q: seq<Entry>, b: nat, start: nat) {
    && |sec.buckets| > 0 && sec.symOffset <= start <= |q| <= sec.symOffset + |sec.chain|
    && forall k :: start <= k < |q| ==>
         && Defined(q[k].attr) && BucketFor(HashOf(q[k].name), |sec.buckets|) == b
         && sec.chain[k - sec.symOffset] == ChainWord(HashOf(q[k].name), false)
         && BloomHas(sec.bloom, HashOf(q[k].name))
  }

  function AppendHash(sec: Section, at: nat, h: nat): (r: Section)
    requires sec.symOffset <= at < sec.symOffset + |sec.chain| && |sec.bloom| > 0
    ensures r.buckets == sec.buckets && r.symOffset == sec.symOffset
  {
    sec.(chain := sec.chain[at - sec.symOffset := h - h % 2], bloom := BloomAdd(sec.bloom, h))
  }

  lemma OpenStep(sec: Section, q: seq<Entry>, b: nat, start: nat, e: Entry)
    requires BucketOpen(sec, q, b, start) && |q| < sec.symOffset + |sec.chain| && |sec.bloom| > 0
    requires Defined(e.attr) && BucketFor(HashOf(e.name), |sec.buckets|) == b
    ensures BucketOpen(AppendHash(sec, |q|, HashOf(e.name)), q + [e], b, start)
    ensures Grown(sec, AppendHash(sec, |q|, HashOf(e.name)), start, b)
  {
    hide HashOf, BloomHas, BucketFor;
  }

  function CloseBucket(sec: Section, b: nat, start: nat, end: nat): Section
    requires b < |sec.buckets| && sec.symOffset <= start < end <= sec.symOffset + |sec.chain|
  {
    var last := end - 1 - sec.symOffset;
    sec.(chain := sec.chain[last := sec.chain[last] - sec.chain[last] % 2 + 1])
  }

  lemma CloseStep(sec: Section, q: seq<Entry>, b: nat, start: nat)
    requires BucketOpen(sec, q, b, start) && start < |q| && b < |sec.buckets| && sec.buckets[b] == start
    ensures BucketOk(CloseBucket(sec, b, start, |q|), q, b, start, |q|)
    ensures Grown(sec, CloseBucket(sec, b, start, |q|), start, b)
  {
    hide HashOf, BloomHas, BucketFor;
  }

  lemma NothingYet(sec: Section, q: seq<Entry>, b: nat)
    requires b < |sec.buckets| && sec.symOffset <= |q| <= sec.symOffset + |sec.chain|
    ensures BucketOpen(sec, q, b, |q|)
    ensures sec.buckets[b] == 0 ==> BucketOk(sec, q, b, |q|, |q|)
  {}

  /** Exactly the undefined symbols, those of the buckets before b, and those of
      bucket b before symbol `cur` have been copied. */
  ghost predicate Reached(tab: seq<Entry>, bk: seq<int>, tr: seq<nat>, inv: seq<nat>, b: nat, cur: nat)
    requires |tr| == |tab| == |bk|
  {
    forall j :: 0 <= j < |tab| ==>
      (Done(tr, inv, j) <==> !Defined(tab[j].attr) || bk[j] < b || (bk[j] == b && j < cur))
  }

  lemma ReachedStart(tab: seq<Entry>, bk: seq<int>, nb: nat, tr: seq<nat>, inv: seq<nat>)
    requires |tr| == |tab| && Assigned(tab, bk, nb)
    requires forall j :: 0 <= j < |tab| ==> (Done(tr, inv, j) <==> !Defined(tab[j].attr))
    ensures Reached(tab, bk, tr, inv, 0, 0)
  {}

  lemma ReachedEnd(tab: seq<Entry>, bk: seq<int>, nb: nat, q: seq<Entry>, tr: seq<nat>, inv: seq<nat>)
    requires Copied(tab, q, tr, inv) && Assigned(tab, bk, nb) && Reached(tab, bk, tr, inv, nb, 0)
    ensures |q| == |tab|
    ensures forall j :: 0 <= j < |tab| ==> tr[j] < |q| && q[tr[j]] == tab[j]
    ensures forall j, k :: 0 <= j < k < |tab| ==> tr[j] != tr[k]
  {
    forall j | 0 <= j < |tab|
      ensures Done(tr, inv, j) && tr[j] < |q| && q[tr[j]] == tab[j]
    {
      assert bk[j] < nb;
    }
    CopiedAll(tab, q, tr, inv);
  }

  lemma ReachedEmpty(tab: seq<Entry>, bk: seq<int>, nb: nat, ls: Lists, tr: seq<nat>, inv: seq<nat>, b: nat)
    requires |tr| == |tab| && Assigned(tab, bk, nb) && Linked(bk, nb, ls, |bk|) && b < nb
    requires Reached(tab, bk, tr, inv, b, 0)
    ensures ls.first[b] == -1 ==> Reached(tab, bk, tr, inv, b + 1, 0)
    ensures ls.first[b] != -1 ==>
              0 <= ls.first[b] <= ls.last[b] < |tab| && bk[ls.first[b]] == b && Reached(tab, bk, tr, inv, b, ls.first[b])
  {
    assert BucketLinked(bk, b, ls.first[b], ls.last[b], |bk|);
  }

  /** Copying symbol `cur` of bucket b and following its link. */
  lemma Advance(tab: seq<Entry>, bk: seq<int>, nb: nat, ls: Lists, q: seq<Entry>, tr: seq<nat>, inv: seq<nat>, b: nat, cur: nat)
    requires Copied(tab, q, tr, inv) && Assigned(tab, bk, nb) && Linked(bk, nb, ls, |bk|) && b < nb
    requires cur <= ls.last[b] < |tab| && bk[cur] == b && Reached(tab, bk, tr, inv, b, cur)
    ensures |q| < |tab| && Copied(tab, q + [tab[cur]], tr[cur := |q|], inv + [cur])
    ensures Defined(tab[cur].attr) && BucketFor(HashOf(tab[cur].name), nb) == b
    ensures cur == ls.last[b] ==> Reached(tab, bk, tr[cur := |q|], inv + [cur], b + 1, 0)
    ensures cur != ls.last[b] ==>
              && cur < ls.next[cur] <= ls.last[b] && bk[ls.next[cur]] == b
              && Reached(tab, bk, tr[cur := |q|], inv + [cur], b, ls.next[cur])
  {
    hide BucketFor, HashOf;
    CopyStep(tab, q, tr, inv, cur);
    assert BucketLinked(bk, b, ls.first[b], ls.last[b], |bk|);
  }

  method FillBucket(tab: seq<Entry>, hash: seq<nat>, bk: seq<int>, ls: Lists, b: nat,
                    q0: seq<Entry>, tr0: seq<nat>, ghost inv0: seq<nat>, sec0: Section)
    returns (q: seq<Entry>, tr: seq<nat>, ghost inv: seq<nat>, sec: Section)
    requires b < |sec0.buckets| && sec0.buckets[b] == 0 && |sec0.bloom| > 0
    requires Assigned(tab, bk, |sec0.buckets|) && Linked(bk, |sec0.buckets|, ls, |bk|) && |hash| == |tab|
    requires forall j :: 0 <= j < |tab| && Defined(tab[j].attr) ==> hash[j] == HashOf(tab[j].name)
    requires Copied(tab, q0, tr0, inv0) && Reached(tab, bk, tr0, inv0, b, 0)
    requires sec0.symOffset <= |q0| && sec0.symOffset + |sec0.chain| == |tab|
    ensures Copied(tab, q, tr, inv) && Reached(tab, bk, tr, inv, b + 1, 0)
    ensures |q0| <= |q| <= |tab| && q[..|q0|] == q0
    ensures forall j :: 0 <= j < |tab| && bk[j] != b ==> tr[j] == tr0[j]
    ensures Grown(sec0, sec, |q0|, b) && BucketOk(sec, q, b, |q0|, |q|)
  {
    hide HashOf, BloomHas, BucketFor, BucketOk, BucketOpen, AppendHash, CloseBucket, Copied, Reached, Linked, Assigned;
    q, tr, inv, sec := q0, tr0, inv0, sec0;
    ghost var nb := |sec0.buckets|;
    CopiedFits(tab, q, tr, inv);
    ReachedEmpty(tab, bk, nb, ls, tr, inv, b);
    NothingYet(sec, q, b);
    var cur := ls.first[b];
    if cur == -1 {
      return;
    }
    sec := sec.(buckets := sec.buckets[b := |q|]);
    NothingYet(sec, q, b);
    while true
      invariant 0 <= cur <= ls.last[b] < |tab| && bk[cur] == b
      invariant Copied(tab, q, tr, inv) && Reached(tab, bk, tr, inv, b, cur)
      invariant |q0| <= |q| && q[..|q0|] == q0
      invariant forall j :: 0 <= j < |tab| && bk[j] != b ==> tr[j] == tr0[j]
      invariant Grown(sec0, sec, |q0|, b) && sec.buckets[b] == |q0| && BucketOpen(sec, q, b, |q0|)
      decreases |tab| - cur
    {
      Advance(tab, bk, nb, ls, q, tr, inv, b, cur);
      OpenStep(sec, q, b, |q0|, tab[cur]);
      sec := AppendHash(sec, |q|, hash[cur]);
      tr := tr[cur := |q|];
      q, inv := q + [tab[cur]], inv + [cur];
      if cur == ls.last[b] {
        break;
      }
      cur := ls.next[cur];
    }
    CloseStep(sec, q, b, |q0|);
    sec := CloseBucket(sec, b, |q0|, |q|);
  }

  // ---- create and update -------------------------------------------------

  /** A section as create_gnu_hash lays it out: sizes only, contents zero. */
  ghost predicate Created(sec: Section) {
    && |sec.buckets| == |sec.chain| / 4 + 1 && |sec.chain| < 8 * |sec.bloom| && PowerOfTwo(|sec.bloom|)
    && (forall b :: 0 <= b < |sec.buckets| ==> sec.buckets[b] == 0)
  }

  /** Laid out for this very table. */
  ghost predicate SizedFor(sec: Section, tab: seq<Entry>) {
    Created(sec) && sec.symOffset == Undefined(tab) && |sec.chain| == |tab| - Undefined(tab)
  }

  method CreateGnuHash(tab: seq<Entry>) returns (sec: Section)
    ensures SizedFor(sec, tab)
  {
    var ndef := 0;
    for i := 0 to |tab|
      invariant ndef == i - Undefined(tab[..i])
    {
      assert tab[..i + 1][..i] == tab[..i];
      if Defined(tab[i].attr) {
        ndef := ndef + 1;
      }
    }
    assert tab[..|tab|] == tab;
    var bloomSize := 1;
    while ndef >= bloomSize * 8
      invariant PowerOfTwo(bloomSize)
    {
      bloomSize := bloomSize * 2;
    }
    sec := Section(|tab| - ndef, seq(bloomSize, _ => {}), seq(ndef / 4 + 1, _ => 0), seq(ndef, _ => 0));
  }

  /** update_gnu_hash on the symbols and the section. */
  method FillBuckets(tab: seq<Entry>, sec0: Section) returns (q: seq<Entry>, tr: seq<nat>, sec: Section)
    requires SizedFor(sec0, tab) && tab != [] && !Defined(tab[0].attr)
    ensures Readable(sec, q) && |q| == |tr| == |tab|
    ensures sec.symOffset == sec0.symOffset && |sec.chain| == |sec0.chain|
    ensures forall j :: 0 <= j < |tab| ==> tr[j] < |q| && q[tr[j]] == tab[j]
    ensures forall j, k :: 0 <= j < k < |tab| ==> tr[j] != tr[k]
    ensures forall j :: 0 <= j < |tab| ==> (tr[j] < sec.symOffset <==> !Defined(tab[j].attr))
    ensures forall j, k :: 0 <= j < k < |tab| && !Defined(tab[j].attr) && !Defined(tab[k].attr) ==> tr[j] < tr[k]
  {
    hide Linked, Assigned, Reached, CutInto, Undefined, Copied, HashOf, BucketOk, Done;
    var q1, tr1, hash;
    ghost var inv1;
    q1, tr1, hash, inv1 := CopyUndefined(tab);
    var nb := |sec0.buckets|;
    var bk := seq(|tab|, j requires 0 <= j < |tab| => if Defined(tab[j].attr) then BucketFor(hash[j], nb) else -1);
    AssignedFrom(tab, bk, nb);
    var ls := LinkBuckets(bk, nb);
    OnlyUndefined(tab, q1, tr1, inv1);
    ReachedStart(tab, bk, nb, tr1, inv1);
    ghost var inv;
    q, tr, sec, inv := FillEach(tab, hash, bk, ls, q1, tr1, inv1, sec0);
    ReachedEnd(tab, bk, nb, q, tr, inv);
    UndefinedFirst(tab, q1, tr1, q, tr);
  }

  /** The first phase copies undefined symbols, and all of them, the null symbol included. */
  lemma OnlyUndefined(tab: seq<Entry>, q: seq<Entry>, tr: seq<nat>, inv: seq<nat>)
    requires Copied(tab, q, tr, inv) && forall j :: 0 <= j < |tab| ==> (Done(tr, inv, j) <==> !Defined(tab[j].attr))
    ensures forall p :: 0 <= p < |q| ==> !Defined(q[p].attr)
    ensures forall j :: 0 <= j < |tab| && !Defined(tab[j].attr) ==> tr[j] < |q|
    ensures tab != [] && !Defined(tab[0].attr) ==> q != []
  {
    forall p | 0 <= p < |q| ensures !Defined(q[p].attr) {
      assert Done(tr, inv, inv[p]);
    }
    forall j | 0 <= j < |tab| && !Defined(tab[j].attr) ensures tr[j] < |q| {
      assert Done(tr, inv, j);
    }
  }

  /** They stay in front. */
  lemma UndefinedFirst(tab: seq<Entry>, q1: seq<Entry>, tr1: seq<nat>, q: seq<Entry>, tr: seq<nat>)
    requires |tr1| == |tr| == |tab| && |q1| <= |q| && q[..|q1|] == q1
    requires forall p :: 0 <= p < |q1| ==> !Defined(q1[p].attr)
    requires forall j :: 0 <= j < |tab| && !Defined(tab[j].attr) ==> tr1[j] < |q1| && tr[j] == tr1[j]
    requires forall j :: 0 <= j < |tab| ==> tr[j] < |q| && q[tr[j]] == tab[j]
    ensures forall k :: 0 <= k < |q1| ==> !Defined(q[k].attr)
    ensures forall j :: 0 <= j < |tab| ==> (tr[j] < |q1| <==> !Defined(tab[j].attr))
  {
    forall k | 0 <= k < |q1| ensures !Defined(q[k].attr) {
      assert q[..|q1|][k] == q1[k];
    }
  }

  method FillEach(tab: seq<Entry>, hash: seq<nat>, bk: seq<int>, ls: Lists,
                  q1: seq<Entry>, tr1: seq<nat>, ghost inv1: seq<nat>, sec0: Section)
    returns (q: seq<Entry>, tr: seq<nat>, sec: Section, ghost inv: seq<nat>)
    requires SizedFor(sec0, tab) && |q1| == sec0.symOffset
    requires Assigned(tab, bk, |sec0.buckets|) && Linked(bk, |sec0.buckets|, ls, |bk|) && |hash| == |tab|
    requires forall j :: 0 <= j < |tab| && Defined(tab[j].attr) ==> hash[j] == HashOf(tab[j].name)
    requires Copied(tab, q1, tr1, inv1) && Reached(tab, bk, tr1, inv1, 0, 0)
    ensures Copied(tab, q, tr, inv) && Reached(tab, bk, tr, inv, |sec0.buckets|, 0)
    ensures sec.symOffset == sec0.symOffset && |sec.chain| == |sec0.chain|
    ensures |sec.buckets| == |sec0.buckets| && |sec.bloom| == |sec0.bloom|
    ensures |q1| <= |q| && q[..|q1|] == q1
    ensures forall j :: 0 <= j < |tab| && bk[j] < 0 ==> tr[j] == tr1[j]
    ensures exists starts: seq<nat> :: CutInto(starts, sec, q)
  {
    hide Assigned, Linked, Copied, Reached, BucketOk, HashOf, BloomHas, Undefined;
    var nb := |sec0.buckets|;
    q, tr, sec, inv := q1, tr1, sec0, inv1;
    ghost var starts: seq<nat> := [|q|];
    for b := 0 to nb
      invariant |sec.buckets| == nb && |sec.bloom| == |sec0.bloom|
      invariant sec.symOffset == sec0.symOffset && |sec.chain| == |sec0.chain|
      invariant Copied(tab, q, tr, inv) && Reached(tab, bk, tr, inv, b, 0)
      invariant |q1| <= |q| && q[..|q1|] == q1
      invariant |starts| == b + 1 && starts[0] == |q1| && starts[b] == |q|
      invariant forall c, d :: 0 <= c < d <= b ==> starts[c] <= starts[d]
      invariant forall c :: 0 <= c < b ==> BucketOk(sec, q, c, starts[c], starts[c + 1])
      invariant forall c :: b <= c < nb ==> sec.buckets[c] == 0
      invariant forall j :: 0 <= j < |tab| && bk[j] < 0 ==> tr[j] == tr1[j]
    {
      ghost var q0, sec1 := q, sec;
      q, tr, inv, sec := FillBucket(tab, hash, bk, ls, b, q, tr, inv, sec);
      forall c | 0 <= c < b
        ensures BucketOk(sec, q, c, starts[c], starts[c + 1])
      {
        BucketOkGrows(sec1, sec, q0, q, b, c, starts[c], starts[c + 1]);
      }
      starts := starts + [|q|];
      assert q[..|q1|] == q0[..|q1|];
    }
    assert CutInto(starts, sec, q);
  }

  // ---- the dynamic symbol table and what must follow it ---------------------

  /** Each version moves with its symbol. */
  method PermuteVersions(versym: seq<nat>, oldToNew: seq<nat>) returns (newver: seq<nat>)
    requires |versym| == |oldToNew| && forall j :: 0 <= j < |oldToNew| ==> oldToNew[j] < |oldToNew|
    requires forall j, k :: 0 <= j < k < |oldToNew| ==> oldToNew[j] != oldToNew[k]
    ensures |newver| == |versym| && forall j :: 0 <= j < |versym| ==> newver[oldToNew[j]] == versym[j]
  {
    newver := versym;
    for i := 0 to |versym|
      invariant |newver| == |versym|
      invariant forall j :: 0 <= j < i ==> newver[oldToNew[j]] == versym[j]
    {
      newver := newver[oldToNew[i] := versym[i]];
    }
  }

  lemma SizedNow(sec: Section, tab: seq<Entry>)
    requires Created(sec) && |sec.chain| == |tab| - Undefined(tab)
    ensures SizedFor(sec.(symOffset := Undefined(tab)), tab)
  {}

  lemma SameOffset(sec: Section, offset: nat, q: seq<Entry>)
    requires Readable(sec, q)
    ensures Readable(sec.(symOffset := offset), q) <==> offset == sec.symOffset
  {
    hide Readable;
    if offset == sec.symOffset {
      assert sec.(symOffset := offset) == sec;
    } else if Readable(sec.(symOffset := offset), q) {
      OffsetIsForced(sec, offset, q);
    }
  }

  /** The section filled for the table, its header left as it is. */
  method Refill(tab: seq<Entry>, gnu: Section, undefined: nat) returns (q: seq<Entry>, tr: seq<nat>, sec: Section)
    requires Created(gnu) && tab != [] && !Defined(tab[0].attr)
    requires undefined == Undefined(tab) && |gnu.chain| == |tab| - undefined
    ensures Readable(sec, q) <==> gnu.symOffset == undefined
    ensures Readable(sec.(symOffset := undefined), q)
    ensures sec.symOffset == gnu.symOffset && |sec.chain| == |gnu.chain| && |q| == |tr| == |tab|
    ensures forall j :: 0 <= j < |tab| ==> tr[j] < |q| && q[tr[j]] == tab[j]
    ensures forall j, k :: 0 <= j < k < |tab| ==> tr[j] != tr[k]
    ensures forall j :: 0 <= j < |tab| ==> (tr[j] < undefined <==> !Defined(tab[j].attr))
  {
    hide Readable, SizedFor, Created, Undefined;
    SizedNow(gnu, tab);
    var filled;
    q, tr, filled := FillBuckets(tab, gnu.(symOffset := undefined));
    SameOffset(filled, gnu.symOffset, q);
    sec := filled.(symOffset := gnu.symOffset);
    assert sec.(symOffset := undefined) == filled;
  }

  class DynamicTable {
    var tab: seq<Entry>
    var sections: seq<RelocSection>
    var versions: seq<nat> // one versym entry per symbol
    var gnu: Section

    constructor (tab: seq<Entry>, sections: seq<RelocSection>, versions: seq<nat>)
      ensures this.tab == tab && this.sections == sections && this.versions == versions && SizedFor(gnu, tab)
    {
      this.tab, this.sections, this.versions := tab, sections, versions;
      var sec := CreateGnuHash(tab);
      gnu := sec;
    }

    /** update_gnu_hash: relocations and versions follow the symbols through the
        permutation `tr`, and the section becomes readable if and only if its
        header was written for as many undefined symbols: only the number of
        defined ones is checked again, the header is not. */
    method UpdateGnuHash() returns (ok: bool, ghost tr: seq<nat>)
      requires Created(gnu) && tab != [] && !Defined(tab[0].attr)
      requires RelocsBelow(sections, |tab|) && |versions| == |tab|
      modifies this
      ensures ok <==> |old(gnu).chain| == |old(tab)| - Undefined(old(tab))
      ensures ok ==> (Readable(gnu, tab) <==> old(gnu).symOffset == Undefined(old(tab)))
      ensures ok ==> gnu.symOffset == old(gnu).symOffset && |gnu.chain| == |old(gnu).chain|
      ensures ok ==> Readable(gnu.(symOffset := Undefined(old(tab))), tab)
      ensures ok ==> |tr| == |tab| == |old(tab)| == |versions|
      ensures ok ==> forall j :: 0 <= j < |tab| ==> tr[j] < |tab| && tab[tr[j]] == old(tab)[j]
      ensures ok ==> forall j, k :: 0 <= j < k < |tab| ==> tr[j] != tr[k]
      ensures ok ==> forall j :: 0 <= j < |tab| ==> (tr[j] < Undefined(old(tab)) <==> !Defined(old(tab)[j].attr))
      ensures ok ==> forall j :: 0 <= j < |tab| ==> versions[tr[j]] == old(versions)[j]
      ensures ok ==> AllRenumbered(old(sections), sections, tr, 0)
    {
      hide Readable, AllRenumbered, Created, Undefined;
      var undefined := CountUndefined(tab);
      ok, tr := |gnu.chain| == |tab| - undefined, [];
      if !ok {
        return;
      }
      var oldToNew;
      tab, oldToNew, gnu := Refill(tab, gnu, undefined);
      tr := oldToNew;
      sections := Renumber(sections, oldToNew, 0);
      versions := PermuteVersions(versions, oldToNew);
    }
  }

  /** A run that passes the size check and loses a symbol: an undefined symbol leaves
      the table after its header was written. CPrime does not do this, between the
      two calls its dynamic symbols do not change. */
  method StaleHeader(name: string) returns (t: DynamicTable)
    ensures fresh(t)
    ensures |t.tab| == 2 && Defined(t.tab[1].attr) && t.tab[1].name == name
    ensures |t.gnu.chain| == |t.tab| - Undefined(t.tab) && !Readable(t.gnu, t.tab)
    ensures name != "" ==> Found(t.gnu, t.tab, name) == 0
  {
    hide Readable, Found, Undefined, AllRenumbered;
    var attr := Attr(0x1000, 8, STB_GLOBAL, STT_NOTYPE, Other(STV_DEFAULT, false, 0), 1);
    var wanted := Entry("gone", attr.(shndx := SHN_UNDEF));
    var tab := [NULL_SYMBOL, Entry(name, attr)];
    UndefinedOf(wanted, Entry(name, attr));
    t := new DynamicTable([NULL_SYMBOL, wanted, Entry(name, attr)], [], [0, 0]);
    t.tab := tab;
    var ok;
    ghost var tr;
    ok, tr := t.UpdateGnuHash();
    SameTwo(tab, t.tab, tr);
    StaleLoses(t.gnu, t.tab);
  }

  lemma UndefinedOf(wanted: Entry, e: Entry)
    requires !Defined(wanted.attr) && Defined(e.attr)
    ensures Undefined([NULL_SYMBOL, wanted, e]) == 2 && Undefined([NULL_SYMBOL, e]) == 1
  {
    hide Undefined;
    UndefinedTwo(NULL_SYMBOL, wanted);
    UndefinedTwo(NULL_SYMBOL, e);
    var tab := [NULL_SYMBOL, wanted, e];
    UndefinedInit(tab);
    assert tab[..2] == [NULL_SYMBOL, wanted];
  }

  lemma UndefinedTwo(a: Entry, b: Entry)
    ensures Undefined([a, b]) == (if Defined(a.attr) then 0 else 1) + (if Defined(b.attr) then 0 else 1)
  {
    hide Undefined;
    UndefinedInit([a, b]);
    assert [a, b][..1] == [a];
    UndefinedInit([a]);
    assert [a][..0] == [];
  }

  lemma UndefinedInit(tab: seq<Entry>)
    requires tab != []
    ensures var n := |tab| - 1; Undefined(tab) == Undefined(tab[..n]) + if Defined(tab[n].attr) then 0 else 1
    ensures Undefined([]) == 0
  {}

  lemma SameTwo(was: seq<Entry>, now: seq<Entry>, tr: seq<nat>)
    requires |was| == |now| == |tr| == 2 && !Defined(was[0].attr) && Defined(was[1].attr)
    requires forall j :: 0 <= j < 2 ==> tr[j] < 2 && now[tr[j]] == was[j] && (tr[j] < 1 <==> !Defined(was[j].attr))
    ensures now == was
  {
    assert tr[0] == 0 && tr[1] == 1;
  }

  lemma StaleLoses(sec: Section, tab: seq<Entry>)
    requires |tab| == 2 && tab[0] == NULL_SYMBOL && sec.symOffset == 2 && Readable(sec.(symOffset := 1), tab)
    ensures !Readable(sec, tab) && (tab[1].name != "" ==> Found(sec, tab, tab[1].name) == 0)
  {
    var good := sec.(symOffset := 1);
    assert good.(symOffset := 2) == sec;
    if Readable(sec, tab) {
      OffsetIsForced(good, 2, tab);
    }
    LateOffsetHides(good, 2, tab);
  }

  method CountUndefined(tab: seq<Entry>) returns (n: nat)
    ensures n == Undefined(tab)
  {
    n := 0;
    for i := 0 to |tab|
      invariant n == Undefined(tab[..i])
    {
      assert tab[..i + 1][..i] == tab[..i];
      if !Defined(tab[i].attr) {
        n := n + 1;
      }
    }
    assert tab[..|tab|] == tab;
  }
}
