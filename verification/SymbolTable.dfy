/** The linker symbol table: symbols, string table and chained hash index in
    growing section buffers, and the end-of-file merge that compacts the
    symbols of a compiled file over themselves. */
module SymbolTables {
  import opened ElfSymbols

  // ---- section buffers ---------------------------------------------------

  datatype Sym = Sym(name: nat, attr: Attr)

  datatype Reloc = Reloc(sym: nat, typ: nat, offset: nat, addend: int)

  /** A relocation section, and whether its `link` is this symbol table. */
  datatype RelocSection = RelocSection(linked: bool, relocs: seq<Reloc>)

  /** The NUL-terminated string at `off`. */
  function CStr(buf: seq<char>, off: nat): (s: string)
    ensures '\0' !in s
    ensures off <= |buf| ==> off + |s| <= |buf|
    decreases |buf| - off
  {
    if off >= |buf| || buf[off] == '\0' then [] else [buf[off]] + CStr(buf, off + 1)
  }

  /** memmove into a section buffer that may be longer, or shorter, than the data. */
  function Overwrite<T>(buf: seq<T>, off: nat, data: seq<T>): (r: seq<T>)
    requires off <= |buf|
    ensures |r| >= off + |data| && r[..off] == buf[..off] && r[off..off + |data|] == data
    ensures |r| >= |buf| && forall p :: off + |data| <= p < |buf| ==> r[p] == buf[p]
  {
    buf[..off] + data + if off + |data| <= |buf| then buf[off + |data|..] else []
  }

  /** A string that ends before `end` does not depend on anything from `end` on. */
  lemma {:induction false} CStrLocal(a: seq<char>, b: seq<char>, off: nat, end: nat)
    requires off + |CStr(a, off)| < end <= |a| && end <= |b|
    requires forall p :: off <= p < end ==> a[p] == b[p]
    ensures CStr(b, off) == CStr(a, off)
    decreases |a| - off
  {
    if a[off] != '\0' {
      CStrLocal(a, b, off + 1, end);
    }
  }

  lemma {:induction false} CStrReads(buf: seq<char>, off: nat, name: string)
    requires '\0' !in name && off + |name| < |buf|
    requires buf[off..off + |name|] == name && buf[off + |name|] == '\0'
    ensures CStr(buf, off) == name
    decreases |name|
  {
    if name != [] {
      assert buf[off] == name[0];
      assert buf[off + 1..off + |name|] == name[1..];
      CStrReads(buf, off + 1, name[1..]);
    }
  }

  ghost function Entries(syms: seq<Sym>, count: nat, strs: seq<char>): (tab: seq<Entry>)
    requires count <= |syms|
    ensures |tab| == count
    ensures forall i :: 0 <= i < count ==> tab[i] == Entry(CStr(strs, syms[i].name), syms[i].attr)
  {
    seq(count, i requires 0 <= i < count => Entry(CStr(strs, syms[i].name), syms[i].attr))
  }

  ghost predicate Terminated(syms: seq<Sym>, count: nat, strs: seq<char>, end: nat)
    requires count <= |syms|
  {
    end <= |strs| && forall i :: 0 <= i < count ==> syms[i].name + |CStr(strs, syms[i].name)| < end
  }

  /** Names of the symbols from `first` on lie above `low`, in symbol order, without overlap. */
  ghost predicate Ordered(syms: seq<Sym>, first: nat, count: nat, strs: seq<char>, low: nat)
    requires count <= |syms|
  {
    && (forall i :: first <= i < count && syms[i].name != 0 ==> low <= syms[i].name)
    && (forall i, j :: first <= i < j < count && syms[i].name != 0 && syms[j].name != 0 ==>
          syms[i].name + |CStr(strs, syms[i].name)| + 1 <= syms[j].name)
  }

  // ---- the hash index ----------------------------------------------------

  /** The bucket of a name; the lemmas below hold for every such function. */
  function Buckets(hashOf: string -> nat, nb: nat): string -> nat
    requires nb > 0
  {
    name => hashOf(name) % nb
  }

  ghost predicate Fits(bk: string -> nat, nb: nat) { forall name :: bk(name) < nb }

  predicate InBucket(e: Entry, bk: string -> nat, h: nat) {
    Global(e.attr) && bk(e.name) == h
  }

  /** The highest symbol below `limit` that belongs to bucket h, 0 if none. */
  ghost function ChainTop(tab: seq<Entry>, bk: string -> nat, h: nat, limit: nat): (k: nat)
    requires limit <= |tab|
    ensures k != 0 ==> k < limit
  {
    if limit <= 1 then 0
    else if InBucket(tab[limit - 1], bk, h) then limit - 1
    else ChainTop(tab, bk, h, limit - 1)
  }

  ghost function ChainNext(tab: seq<Entry>, bk: string -> nat, i: nat): nat
    requires i < |tab|
  {
    if Global(tab[i].attr) then ChainTop(tab, bk, bk(tab[i].name), i) else 0
  }

  /** Layout: bucket count, symbol count, bucket heads, then one chain slot per
      symbol, the slot of symbol i at 2 + nbuckets + i. */
  ghost predicate IndexOk(hash: seq<nat>, tab: seq<Entry>, bk: string -> nat) {
    && |hash| >= 2 && hash[0] > 0 && |tab| >= 1 && Fits(bk, hash[0])
    && |hash| == 2 + hash[0] + |tab| && hash[1] == |tab|
    && (forall h :: 0 <= h < hash[0] ==> hash[2 + h] == ChainTop(tab, bk, h, |tab|))
    && (forall i :: 1 <= i < |tab| ==> hash[2 + hash[0] + i] == ChainNext(tab, bk, i))
  }

  ghost function Globals(tab: seq<Entry>): nat {
    if tab == [] then 0
    else Globals(tab[..|tab| - 1]) + if Global(tab[|tab| - 1].attr) then 1 else 0
  }

  /** A chain visits, highest first, every symbol a linear search could return. */
  lemma {:induction false} ChainFindsLatest(tab: seq<Entry>, bk: string -> nat, name: string, limit: nat)
    requires limit <= |tab|
    ensures var c := ChainTop(tab, bk, bk(name), limit);
            Latest(tab, name, limit) == if c == 0 then 0 else if tab[c].name == name then c else Latest(tab, name, c)
    ensures var c := ChainTop(tab, bk, bk(name), limit);
            c != 0 ==> InBucket(tab[c], bk, bk(name))
  {
    if limit > 1 {
      ChainFindsLatest(tab, bk, name, limit - 1);
    }
  }

  ghost predicate SameKeys(a: seq<Entry>, b: seq<Entry>, limit: nat)
    requires limit <= |a| && limit <= |b|
  {
    forall i :: 0 <= i < limit ==> a[i].name == b[i].name && (Global(a[i].attr) <==> Global(b[i].attr))
  }

  lemma {:induction false} ChainTopKeys(a: seq<Entry>, b: seq<Entry>, bk: string -> nat, h: nat, limit: nat)
    requires limit <= |a| && limit <= |b| && SameKeys(a, b, limit)
    ensures ChainTop(a, bk, h, limit) == ChainTop(b, bk, h, limit)
  {
    if limit > 1 {
      ChainTopKeys(a, b, bk, h, limit - 1);
    }
  }

  lemma {:induction false} GlobalsKeys(a: seq<Entry>, b: seq<Entry>)
    requires |a| == |b| && SameKeys(a, b, |a|)
    ensures Globals(a) == Globals(b)
  {
    if a != [] {
      GlobalsKeys(a[..|a| - 1], b[..|b| - 1]);
    }
  }

  /** Patching a symbol in place does not disturb the index. */
  lemma IndexKeys(hash: seq<nat>, a: seq<Entry>, b: seq<Entry>, bk: string -> nat)
    requires IndexOk(hash, a, bk) && |a| == |b| && SameKeys(a, b, |a|)
    ensures IndexOk(hash, b, bk) && Globals(a) == Globals(b)
  {
    GlobalsKeys(a, b);
    forall h | 0 <= h < hash[0]
      ensures ChainTop(a, bk, h, |a|) == ChainTop(b, bk, h, |b|)
    {
      ChainTopKeys(a, b, bk, h, |a|);
    }
    forall i | 1 <= i < |a|
      ensures ChainNext(a, bk, i) == ChainNext(b, bk, i)
    {
      ChainTopKeys(a, b, bk, bk(a[i].name), i);
    }
  }

  /** The index after put_elf_sym pushed one symbol onto its chain. */
  function Push(hash: seq<nat>, e: Entry, bk: string -> nat): (r: seq<nat>)
    requires |hash| > 2 && |hash| >= 2 + hash[0] && Fits(bk, hash[0])
    ensures |r| == |hash| + 1 && r[0] == hash[0] && r[1] == hash[1] + 1
    ensures var h := bk(e.name);
            && (forall j :: 2 <= j < |hash| ==> r[j] == if Global(e.attr) && j == 2 + h then hash[1] else hash[j])
            && r[|hash|] == if Global(e.attr) then hash[2 + h] else 0
  {
    var k := hash[1];
    if Global(e.attr) then
      var h := bk(e.name);
      (hash + [hash[2 + h]])[2 + h := k][1 := k + 1]
    else (hash + [0])[1 := k + 1]
  }

  lemma GrowKeepsChains(tab: seq<Entry>, e: Entry, bk: string -> nat)
    ensures var t := tab + [e];
            && (forall h: nat, k: nat :: k <= |tab| ==> ChainTop(t, bk, h, k) == ChainTop(tab, bk, h, k))
            && (forall i: nat :: i < |tab| ==> ChainNext(t, bk, i) == ChainNext(tab, bk, i))
  {
    var t := tab + [e];
    forall h: nat, k: nat | k <= |tab|
      ensures ChainTop(t, bk, h, k) == ChainTop(tab, bk, h, k)
    {
      ChainTopKeys(tab, t, bk, h, k);
    }
  }

  lemma PushKeepsIndex(hash: seq<nat>, tab: seq<Entry>, e: Entry, bk: string -> nat)
    requires IndexOk(hash, tab, bk)
    ensures IndexOk(Push(hash, e, bk), tab + [e], bk)
    ensures Globals(tab + [e]) == Globals(tab) + if Global(e.attr) then 1 else 0
  {
    var t, r, nb := tab + [e], Push(hash, e, bk), hash[0];
    assert t[..|tab|] == tab;
    GrowKeepsChains(tab, e, bk);
    forall h | 0 <= h < nb
      ensures r[2 + h] == ChainTop(t, bk, h, |t|)
    {
      assert ChainTop(t, bk, h, |tab|) == ChainTop(tab, bk, h, |tab|) == hash[2 + h];
    }
    forall i | 1 <= i < |t|
      ensures r[2 + nb + i] == ChainNext(t, bk, i)
    {
      if i < |tab| {
        assert ChainNext(t, bk, i) == ChainNext(tab, bk, i);
      } else if Global(e.attr) {
        var h := bk(e.name);
        assert ChainTop(t, bk, h, |tab|) == ChainTop(tab, bk, h, |tab|) == hash[2 + h];
      }
    }
  }

  /** rebuild_hash after symbols 1 .. k - 1. */
  ghost predicate PartIndex(h: seq<nat>, tab: seq<Entry>, bk: string -> nat, nb: nat, k: nat) {
    && Fits(bk, nb) && 1 <= k <= |tab| && |h| == 2 + nb + |tab| && h[0] == nb && h[1] == |tab|
    && (forall b :: 0 <= b < nb ==> h[2 + b] == ChainTop(tab, bk, b, k))
    && (forall i :: 1 <= i < k ==> h[2 + nb + i] == ChainNext(tab, bk, i))
  }

  /** Cleared buckets index nothing. */
  lemma NothingIndexed(sized: seq<nat>, h: seq<nat>, tab: seq<Entry>, bk: string -> nat, nb: nat)
    requires Fits(bk, nb) && |tab| > 0 && |sized| == 2 + nb + |tab| && sized[0] == nb && sized[1] == |tab|
    requires h == sized[..2] + seq(nb + 1, _ => 0) + sized[2 + nb + 1..]
    ensures PartIndex(h, tab, bk, nb, 1)
  {}

  /** One iteration of rebuild_hash. */
  function Link(h: seq<nat>, e: Entry, bk: string -> nat, nb: nat, k: nat): (r: seq<nat>)
    requires |h| > 2 + nb + k && Fits(bk, nb)
    ensures |r| == |h|
  {
    if Global(e.attr) then
      var b := bk(e.name);
      h[2 + nb + k := h[2 + b]][2 + b := k]
    else h[2 + nb + k := 0]
  }

  lemma LinkStep(h: seq<nat>, tab: seq<Entry>, bk: string -> nat, nb: nat, k: nat)
    requires PartIndex(h, tab, bk, nb, k) && k < |tab|
    ensures PartIndex(Link(h, tab[k], bk, nb, k), tab, bk, nb, k + 1)
  {
    var r := Link(h, tab[k], bk, nb, k);
    var next := k + 1;
    forall b | 0 <= b < nb
      ensures r[2 + b] == ChainTop(tab, bk, b, next)
    {
      assert h[2 + b] == ChainTop(tab, bk, b, k);
    }
    forall i | 1 <= i < k + 1
      ensures r[2 + nb + i] == ChainNext(tab, bk, i)
    {
      if i < k {
        assert r[2 + nb + i] == h[2 + nb + i];
      }
    }
  }

  // ---- appending to the buffers ------------------------------------------

  /** st_name for a symbol about to be appended: offset 0, the empty string, when it has no name. */
  function NameOffset(strCount: nat, name: string): nat { if name == "" then 0 else strCount }

  function StrsAfter(strs: seq<char>, strCount: nat, name: string): seq<char>
    requires strCount <= |strs|
  {
    if name == "" then strs else Overwrite(strs, strCount, name + ['\0'])
  }

  function StrCountAfter(strCount: nat, name: string): nat {
    if name == "" then strCount else strCount + |name| + 1
  }

  /** Appending keeps every earlier string, and everything past the appended data. */
  lemma StrAppended(strs: seq<char>, strCount: nat, name: string)
    requires 0 < strCount <= |strs| && strs[0] == '\0' && '\0' !in name
    ensures var s, n := StrsAfter(strs, strCount, name), StrCountAfter(strCount, name);
            && |strs| <= |s| && n <= |s| && s[0] == '\0'
            && CStr(s, NameOffset(strCount, name)) == name && NameOffset(strCount, name) + |name| < n
            && (forall off: nat :: off + |CStr(strs, off)| < strCount ==> CStr(s, off) == CStr(strs, off))
            && (forall p :: n <= p < |strs| ==> s[p] == strs[p])
  {
    var s, n := StrsAfter(strs, strCount, name), StrCountAfter(strCount, name);
    forall off: nat | off + |CStr(strs, off)| < strCount
      ensures CStr(s, off) == CStr(strs, off)
    {
      forall p | off <= p < strCount ensures strs[p] == s[p] {
        assert s[..strCount][p] == strs[..strCount][p];
      }
      CStrLocal(strs, s, off, strCount);
    }
    if name != "" {
      var d := name + ['\0'];
      forall p | 0 <= p < |d| ensures s[strCount + p] == d[p] {
        assert s[strCount..strCount + |d|][p] == d[p];
      }
      assert s[strCount..strCount + |name|] == name;
      CStrReads(s, strCount, name);
      assert s[0] == s[..strCount][0] == strs[0];
    }
  }

  lemma SymAppended(syms: seq<Sym>, count: nat, strs: seq<char>, strCount: nat, name: string, attr: Attr)
    requires count <= |syms| && 0 < strCount <= |strs| && strs[0] == '\0' && '\0' !in name
    requires Terminated(syms, count, strs, strCount)
    ensures var y, s := Overwrite(syms, count, [Sym(NameOffset(strCount, name), attr)]), StrsAfter(strs, strCount, name);
            && Entries(y, count + 1, s) == Entries(syms, count, strs) + [Entry(name, attr)]
            && Terminated(y, count + 1, s, StrCountAfter(strCount, name))
            && (forall first: nat, low: nat ::
                  first <= count && low <= strCount && Terminated(syms, first, strs, low) ==> Terminated(y, first, s, low))
            && (forall first: nat, low: nat ::
                  Ordered(syms, first, count, strs, low) && low <= strCount ==> Ordered(y, first, count + 1, s, low))
  {
    StrAppended(strs, strCount, name);
    var y, s := Overwrite(syms, count, [Sym(NameOffset(strCount, name), attr)]), StrsAfter(strs, strCount, name);
    assert y[count] == y[count..count + 1][0];
    forall i | 0 <= i < count ensures y[i] == syms[i] {
      assert y[..count][i] == syms[..count][i];
    }
    forall i | 0 <= i < count ensures CStr(s, y[i].name) == CStr(strs, syms[i].name) {
    }
  }

  // ---- reading a file's symbols out of the tail being overwritten ----------

  /** The buffers while symbols are merged from their own stale tail, and as they
      were when the file ended: `strCount` is the write position. */
  datatype Buffers = Buffers(syms: seq<Sym>, strs: seq<char>)

  /** Symbols from `next` on, and their names, are as they were. */
  ghost predicate Unread(now: Buffers, strCount: nat, was: Buffers, strEnd: nat, next: nat, end: nat) {
    && end <= |now.syms| && end <= |was.syms| && strEnd <= |now.strs| && strEnd <= |was.strs|
    && 0 < |now.strs| && 0 < |was.strs| && now.strs[0] == was.strs[0] == '\0'
    && (forall k :: next <= k < end ==> now.syms[k] == was.syms[k])
    && (forall k :: next <= k < end && was.syms[k].name != 0 ==> strCount <= was.syms[k].name)
    && (forall p :: strCount <= p < strEnd ==> now.strs[p] == was.strs[p])
  }

  lemma UnreadName(now: Buffers, strCount: nat, was: Buffers, strEnd: nat, next: nat, end: nat)
    requires Unread(now, strCount, was, strEnd, next, end) && next < end
    requires Terminated(was.syms, end, was.strs, strEnd)
    ensures CStr(now.strs, now.syms[next].name) == CStr(was.strs, was.syms[next].name)
  {
    if was.syms[next].name != 0 {
      CStrLocal(was.strs, now.strs, was.syms[next].name, strEnd);
    }
  }

  /** A name never reaches past its own old place, so the next unread name is safe. */
  lemma UnreadNext(a: Buffers, strCountA: nat, b: Buffers, strCountB: nat, was: Buffers, strEnd: nat, next: nat, end: nat,
                   first: nat, low: nat)
    requires Unread(a, strCountA, was, strEnd, next, end) && first <= next < end
    requires Ordered(was.syms, first, end, was.strs, low)
    requires strCountA <= strCountB <= StrCountAfter(strCountA, CStr(was.strs, was.syms[next].name))
    requires |b.syms| >= |a.syms| && forall k :: next < k < |a.syms| ==> b.syms[k] == a.syms[k]
    requires |b.strs| >= |a.strs| && forall p :: strCountB <= p < |a.strs| ==> b.strs[p] == a.strs[p]
    requires b.strs[0] == '\0'
    ensures Unread(b, strCountB, was, strEnd, next + 1, end)
  {
    var name := CStr(was.strs, was.syms[next].name);
    if was.syms[next].name == 0 {
      assert name == "";
    }
    forall k | next + 1 <= k < end && was.syms[k].name != 0
      ensures strCountB <= was.syms[k].name
    {
      assert was.syms[next].name != 0 ==> was.syms[next].name + |name| + 1 <= was.syms[k].name;
    }
  }

  // ---- relocations -------------------------------------------------------

  /** Every relocation of a linked section names a symbol below `count`. */
  ghost predicate RelocsBelow(sections: seq<RelocSection>, count: nat) {
    forall i, j :: 0 <= i < |sections| && sections[i].linked && 0 <= j < |sections[i].relocs| ==>
      sections[i].relocs[j].sym < count
  }

  /** The relocation update_relocs leaves behind. */
  function Renumbered(r: Reloc, tr: seq<nat>, first: nat): Reloc
    requires r.sym < first + |tr|
  {
    if r.sym < first then r else r.(sym := tr[r.sym - first])
  }

  ghost predicate AllRenumbered(before: seq<RelocSection>, after: seq<RelocSection>, tr: seq<nat>, first: nat)
    requires RelocsBelow(before, first + |tr|)
  {
    && |after| == |before|
    && forall i :: 0 <= i < |before| ==> SectionRenumbered(before[i], after[i], tr, first)
  }

  ghost predicate SectionRenumbered(before: RelocSection, after: RelocSection, tr: seq<nat>, first: nat)
    requires before.linked ==> forall j :: 0 <= j < |before.relocs| ==> before.relocs[j].sym < first + |tr|
  {
    if before.linked then
      && after.linked && |after.relocs| == |before.relocs|
      && forall j :: 0 <= j < |before.relocs| ==> after.relocs[j] == Renumbered(before.relocs[j], tr, first)
    else after == before
  }

  /** update_relocs */
  method Renumber(before: seq<RelocSection>, oldToNew: seq<nat>, firstSym: nat) returns (sections: seq<RelocSection>)
    requires RelocsBelow(before, firstSym + |oldToNew|)
    ensures AllRenumbered(before, sections, oldToNew, firstSym)
  {
    sections := before;
    for i := 0 to |sections|
      invariant |sections| == |before|
      invariant forall k :: 0 <= k < i ==> SectionRenumbered(before[k], sections[k], oldToNew, firstSym)
      invariant forall k :: i <= k < |sections| ==> sections[k] == before[k]
    {
      if sections[i].linked {
        var relocs := sections[i].relocs;
        for j := 0 to |relocs|
          invariant |relocs| == |before[i].relocs|
          invariant forall k :: 0 <= k < j ==> relocs[k] == Renumbered(before[i].relocs[k], oldToNew, firstSym)
          invariant forall k :: j <= k < |relocs| ==> relocs[k] == before[i].relocs[k]
        {
          var symIndex := relocs[j].sym - firstSym;
          if symIndex >= 0 {
            relocs := relocs[j := relocs[j].(sym := oldToNew[symIndex])];
          }
        }
        sections := sections[i := RelocSection(true, relocs)];
      }
    }
  }

  /** Every relocation of the file, and of the files before it, still names the
      symbol it named: `was` is the table as compiled, `m` the table after the merge. */
  lemma RelocationsKeepReferents(was: seq<Entry>, first: nat, r: Reloc, elfObject: bool, cfg: Config)
    requires 0 < first <= |was| && r.sym < |was|
    ensures var m := Merge(was[..first], was[first..], elfObject, cfg);
            var r1 := Renumbered(r, m.tr, first);
            && r1.sym < |m.tab| && r1.typ == r.typ && r1.offset == r.offset && r1.addend == r.addend
            && (if r.sym < first then KeptInPlace(was[r.sym], m.tab[r1.sym]) else SameReferent(was[r.sym], m.tab[r1.sym]))
  {
    MergeKeepsReferents(was[..first], was[first..], elfObject, cfg);
    if r.sym >= first {
      assert was[first..][r.sym - first] == was[r.sym];
    }
  }

  // ---- sorting -----------------------------------------------------------

  function CountOf(syms: seq<Sym>, global: bool): (n: nat)
    ensures n <= |syms|
  {
    if syms == [] then 0
    else CountOf(syms[..|syms| - 1], global) + if Global(syms[|syms| - 1].attr) == global then 1 else 0
  }

  lemma {:induction false} CountsAddUp(syms: seq<Sym>)
    ensures CountOf(syms, false) + CountOf(syms, true) == |syms|
  {
    if syms != [] {
      CountsAddUp(syms[..|syms| - 1]);
    }
  }

  /** `tr` sends each of the first `n` symbols of one kind to its copy in q, in order. */
  ghost predicate Placed(syms: seq<Sym>, n: nat, q: seq<Sym>, tr: seq<nat>, from: nat, global: bool)
    requires n <= |syms| == |tr|
  {
    && (forall k :: 0 <= k < n && Global(syms[k].attr) == global ==> from <= tr[k] < |q| && q[tr[k]] == syms[k])
    && (forall j, k :: 0 <= j < k < n && Global(syms[j].attr) == global == Global(syms[k].attr) ==> tr[j] < tr[k])
  }

  /** One pass of sort_syms: the symbols of one kind are appended, in order. */
  method CopyKind(syms: seq<Sym>, q0: seq<Sym>, tr0: seq<nat>, global: bool) returns (q: seq<Sym>, tr: seq<nat>)
    requires |tr0| == |syms|
    ensures |q| == |q0| + CountOf(syms, global) && |tr| == |syms| && q[..|q0|] == q0
    ensures Placed(syms, |syms|, q, tr, |q0|, global)
    ensures forall k :: 0 <= k < |syms| && Global(syms[k].attr) != global ==> tr[k] == tr0[k]
    ensures forall k :: |q0| <= k < |q| ==> Global(q[k].attr) == global
  {
    q, tr := q0, tr0;
    for i := 0 to |syms|
      invariant |tr| == |syms| && |q| == |q0| + CountOf(syms[..i], global) && q[..|q0|] == q0
      invariant Placed(syms, i, q, tr, |q0|, global)
      invariant forall k :: 0 <= k < |syms| && Global(syms[k].attr) != global ==> tr[k] == tr0[k]
      invariant forall k :: |q0| <= k < |q| ==> Global(q[k].attr) == global
    {
      assert syms[..i + 1][..i] == syms[..i];
      if Global(syms[i].attr) == global {
        tr := tr[i := |q|];
        q := q + [syms[i]];
      }
    }
    assert syms[..|syms|] == syms;
  }

  /** sort_syms on the symbols alone: a stable, locals-first permutation. */
  method LocalsFirst(syms: seq<Sym>) returns (q: seq<Sym>, tr: seq<nat>, nLocals: nat)
    ensures |q| == |tr| == |syms| && nLocals <= |q|
    ensures forall k :: 0 <= k < |syms| ==> tr[k] < |q| && q[tr[k]] == syms[k]
    ensures forall j, k :: 0 <= j < k < |syms| ==> tr[j] != tr[k]
    ensures forall j, k :: 0 <= j < k < |syms| && Global(syms[j].attr) == Global(syms[k].attr) ==> tr[j] < tr[k]
    ensures forall k :: 0 <= k < |q| ==> (k < nLocals <==> !Global(q[k].attr))
  {
    CountsAddUp(syms);
    var q0, tr0 := CopyKind(syms, [], seq(|syms|, _ => 0), false);
    nLocals := |q0|;
    q, tr := CopyKind(syms, q0, tr0, true);
    forall k | 0 <= k < nLocals ensures q[k] == q0[k] {
      assert q[..nLocals][k] == q0[k];
    }
  }

  // ---- the table ---------------------------------------------------------

  class SymbolTable {
    const hashOf: string -> nat // elf_hash, whichever variant is compiled in
    const cfg: Config
    var syms: seq<Sym> // section data; entries from `count` on are stale
    var count: nat
    var strs: seq<char> // string section data; stale from `strCount` on
    var strCount: nat
    var hash: seq<nat>
    var nbHashed: nat
    var hashing: bool // the hash section is attached
    var symMark: nat // sh_offset of both sections
    var strMark: nat
    var sections: seq<RelocSection>
    var clashes: nat // "defined twice" reports

    ghost function Tab(): (tab: seq<Entry>)
      reads this
      requires count <= |syms|
    {
      Entries(syms, count, strs)
    }

    ghost predicate BuffersOk()
      reads this
    {
      && 1 <= count <= |syms| && 1 <= strCount <= |strs| && strs[0] == '\0'
      && Terminated(syms, count, strs, strCount)
    }

    /** The index describes the first `indexed` symbols. */
    ghost predicate IndexedUpTo(indexed: nat)
      reads this
    {
      && 1 <= indexed <= count <= |syms|
      && |hash| > 0 && hash[0] > 0 && IndexOk(hash, Tab()[..indexed], Buckets(hashOf, hash[0]))
      && nbHashed == Globals(Tab()[..indexed]) <= 2 * hash[0]
    }

    /** Between files the whole table is indexed; while a file is compiled only
        the part before it is, and the file's names lie in symbol order. */
    ghost predicate Valid()
      reads this
      ensures Valid() ==> 1 <= count <= |syms| && (!hashing ==> 1 <= symMark <= count)
    {
      && BuffersOk()
      && if hashing then IndexedUpTo(count)
         else 1 <= symMark && 1 <= strMark <= strCount && IndexedUpTo(symMark)
              && Terminated(syms, symMark, strs, strMark)
              && Ordered(syms, symMark, count, strs, strMark)
    }

    constructor (hashOf: string -> nat, cfg: Config)
      ensures Valid() && hashing && Tab() == [NULL_SYMBOL] && clashes == 0 && sections == []
    {
      this.hashOf, this.cfg := hashOf, cfg;
      strs, strCount := ['\0'], 1;
      syms, count := [Sym(0, NULL_SYMBOL.attr)], 1;
      hash, nbHashed, hashing := [1, 1, 0, 0], 0, true;
      symMark, strMark, sections, clashes := 0, 0, [], 0;
      new;
      assert Tab()[..0] == [];
    }

    method RebuildHash(nbBuckets: nat)
      requires BuffersOk() && (nbBuckets > 0 || (|hash| > 0 && hash[0] > 0))
      modifies this`hash
      ensures |hash| > 0 && hash[0] > 0 && IndexOk(hash, Tab(), Buckets(hashOf, hash[0]))
      ensures hash[0] == if nbBuckets == 0 then old(hash)[0] else nbBuckets
    {
      var nb := if nbBuckets == 0 then hash[0] else nbBuckets;
      var nbSyms := count;
      var bk := Buckets(hashOf, nb);
      var size: nat := 2 + nb + nbSyms;
      var h: seq<nat> := if size <= |hash| then hash[..size] else hash + seq(size - |hash|, _ => 0);
      h := h[0 := nb][1 := nbSyms];
      ghost var sized := h;
      h := h[..2] + seq(nb + 1, _ => 0) + h[2 + nb + 1..];
      NothingIndexed(sized, h, Tab(), bk, nb);
      hide PartIndex, Link, Entries, CStr;
      for symIndex := 1 to nbSyms
        invariant PartIndex(h, Tab(), bk, nb, symIndex)
      {
        LinkStep(h, Tab(), bk, nb, symIndex);
        var sym := syms[symIndex];
        h := Link(h, Entry(CStr(strs, sym.name), sym.attr), bk, nb, symIndex);
      }
      hash := h;
    }

    method PutStr(name: string) returns (offset: nat)
      requires 1 <= strCount <= |strs| && name != ""
      modifies this`strs, this`strCount
      ensures offset == old(strCount) && strCount == StrCountAfter(old(strCount), name)
      ensures strs == StrsAfter(old(strs), old(strCount), name)
    {
      offset := strCount;
      strs := Overwrite(strs, strCount, name + ['\0']);
      strCount := strCount + |name| + 1;
    }

    /** put_elf_sym without its hashing half. Whatever the buffers hold beyond
        their ends is left as it was. */
    method AppendSym(attr: Attr, name: string)
      requires BuffersOk() && '\0' !in name
      modifies this`syms, this`count, this`strs, this`strCount
      ensures BuffersOk() && count == old(count) + 1
      ensures Tab() == old(Tab()) + [Entry(name, attr)]
      ensures strCount == StrCountAfter(old(strCount), name)
      ensures |syms| >= old(|syms|) && forall k :: count <= k < old(|syms|) ==> syms[k] == old(syms)[k]
      ensures |strs| >= old(|strs|) && forall p :: strCount <= p < old(|strs|) ==> strs[p] == old(strs)[p]
      ensures forall first: nat, low: nat ::
        first <= old(count) && low <= old(strCount) && Terminated(old(syms), first, old(strs), low) ==>
          Terminated(syms, first, strs, low)
      ensures forall first: nat, low: nat ::
        Ordered(old(syms), first, old(count), old(strs), low) && low <= old(strCount) ==>
          Ordered(syms, first, count, strs, low)
    {
      SymAppended(syms, count, strs, strCount, name, attr);
      StrAppended(strs, strCount, name);
      var nameOffset := 0;
      if name != "" {
        nameOffset := PutStr(name);
      }
      syms := Overwrite(syms, count, [Sym(nameOffset, attr)]);
      count := count + 1;
    }

    /** put_elf_sym: one more entry, nothing else changed. */
    method PutSym(attr: Attr, name: string) returns (index: nat)
      requires Valid() && '\0' !in name
      modifies this`syms, this`count, this`strs, this`strCount, this`hash, this`nbHashed
      ensures Valid()
      ensures index == old(count) && count == index + 1
      ensures Tab() == old(Tab()) + [Entry(name, attr)]
      ensures strCount == StrCountAfter(old(strCount), name)
      ensures |syms| >= old(|syms|) && forall k :: count <= k < old(|syms|) ==> syms[k] == old(syms)[k]
      ensures |strs| >= old(|strs|) && forall p :: strCount <= p < old(|strs|) ==> strs[p] == old(strs)[p]
    {
      hide IndexOk, Terminated, Ordered, Globals, Entries, CStr;
      index := count;
      AppendSym(attr, name);
      if hashing {
        assert Tab()[..old(count)] == old(Tab()) == old(Tab()[..count]);
        IndexNew(Entry(name, attr));
      } else {
        assert Tab()[..symMark] == old(Tab()[..symMark]);
      }
    }

    /** The hashing half of put_elf_sym: the last entry joins its chain, and the
        buckets double when they are outnumbered two to one. */
    method IndexNew(e: Entry)
      requires BuffersOk() && hashing && count > 1 && IndexedUpTo(count - 1) && Tab()[count - 1] == e
      modifies this`hash, this`nbHashed
      ensures IndexedUpTo(count)
      ensures hash[0] == if nbHashed > 2 * old(hash)[0] then 2 * old(hash)[0] else old(hash)[0]
      ensures nbHashed == old(nbHashed) + if e.attr.bind != STB_LOCAL then 1 else 0
    {
      ghost var tab := Tab()[..count - 1];
      assert tab + [e] == Tab()[..count] == Tab();
      var bk := Buckets(hashOf, hash[0]);
      PushKeepsIndex(hash, tab, e, bk);
      hash := Push(hash, e, bk);
      if Global(e.attr) {
        nbHashed := nbHashed + 1;
        if nbHashed > 2 * hash[0] {
          RebuildHash(2 * hash[0]);
        }
      }
    }

    /** find_elf_sym: agrees with the linear search. */
    method Find(name: string) returns (symIndex: nat)
      requires Valid()
      ensures hashing ==> symIndex == Latest(Tab(), name, count)
      ensures !hashing ==> symIndex == 0
    {
      if !hashing {
        return 0;
      }
      assert Tab()[..count] == Tab();
      symIndex := WalkChain(name);
    }

    method WalkChain(name: string) returns (symIndex: nat)
      requires 1 <= count <= |syms| && |hash| > 0 && hash[0] > 0
      requires IndexOk(hash, Tab(), Buckets(hashOf, hash[0]))
      ensures symIndex == Latest(Tab(), name, count)
    {
      hide InBucket;
      ghost var tab, limit: nat := Tab(), count;
      var nb := hash[0];
      var bk := Buckets(hashOf, nb);
      symIndex := hash[2 + bk(name)];
      while symIndex != 0
        invariant limit <= count && symIndex == ChainTop(tab, bk, bk(name), limit)
        invariant Latest(tab, name, limit) == Latest(tab, name, count)
        decreases symIndex
      {
        ChainFindsLatest(tab, bk, name, limit);
        if CStr(strs, syms[symIndex].name) == name {
          return;
        }
        limit := symIndex;
        assert hash[2 + hash[0] + symIndex] == ChainNext(tab, bk, symIndex);
        symIndex := hash[2 + nb + symIndex];
      }
      ChainFindsLatest(tab, bk, name, limit);
    }

    /** An assignment to the fields of an existing symbol. */
    method PatchSym(k: nat, attr: Attr)
      requires Valid() && hashing && k < count && (Global(syms[k].attr) <==> Global(attr))
      modifies this`syms
      ensures Valid() && |syms| == old(|syms|)
      ensures Tab() == old(Tab())[k := Entry(old(Tab())[k].name, attr)]
      ensures forall i :: count <= i < |syms| ==> syms[i] == old(syms)[i]
    {
      ghost var tab0 := Tab();
      syms := syms[k := Sym(syms[k].name, attr)];
      assert tab0[..count] == tab0 && Tab()[..count] == Tab();
      IndexKeys(hash, tab0, Tab(), Buckets(hashOf, hash[0]));
    }

    /** The part of set_elf_sym for a name already in the table. */
    method ResolveSym(k: nat, attr: Attr)
      requires Valid() && hashing && 0 < k < count && Global(syms[k].attr) && Global(attr)
      modifies this`syms, this`clashes
      ensures Valid() && |syms| == old(|syms|)
      ensures var e := old(Tab())[k];
              && Tab() == old(Tab())[k := e.(attr := Resolve(e.attr, attr, cfg))]
              && clashes == old(clashes) + if Clashes(e.attr, attr, cfg) then 1 else 0
      ensures forall i :: count <= i < |syms| ==> syms[i] == old(syms)[i]
    {
      hide IndexOk, Terminated, Ordered, MergedVisibility, Globals;
      var esym := syms[k].attr;
      if esym == attr {
        assert Tab()[k] == Tab()[k].(attr := esym);
        return;
      }
      var patch := true;
      if Defined(esym) {
        esym := esym.(other := esym.other.(vis := MergedVisibility(esym.other.vis, attr.other.vis)));
        match Judge(esym, attr, cfg) {
          case Keep => patch := false;
          case Clash => patch := false; clashes := clashes + 1;
          case Replace =>
        }
      } else {
        esym := esym.(other := attr.other);
      }
      if patch {
        esym := Patch(esym, attr);
      }
      PatchSym(k, esym);
    }

    /** set_elf_sym: the table becomes what Add says. */
    method SetSym(attr: Attr, name: string) returns (index: nat)
      requires Valid() && hashing && '\0' !in name
      modifies this`syms, this`count, this`strs, this`strCount, this`hash, this`nbHashed, this`clashes
      ensures Valid() && old(count) <= count <= old(count) + 1
      ensures var r := Add(old(Tab()), Entry(name, attr), cfg);
              Tab() == r.tab && index == r.index && clashes == old(clashes) + if r.clash then 1 else 0
      ensures old(strCount) <= strCount <= StrCountAfter(old(strCount), name)
      ensures |syms| >= old(|syms|) && forall k :: old(count) < k < old(|syms|) ==> syms[k] == old(syms)[k]
      ensures |strs| >= old(|strs|) && forall p :: strCount <= p < old(|strs|) ==> strs[p] == old(strs)[p]
    {
      index := 0;
      if Global(attr) {
        index := Find(name);
      }
      if index != 0 {
        ResolveSym(index, attr);
      } else {
        index := PutSym(attr, name);
      }
    }

    /** cprimeelf_begin_file: remember the ends and detach the index. */
    method BeginFile()
      requires Valid() && hashing
      modifies this`hashing, this`symMark, this`strMark
      ensures Valid() && !hashing && symMark == count && strMark == strCount
    {
      symMark, strMark := count, strCount;
      hashing := false;
    }

    /** The rewrite of an undefined symbol's st_info, done in the stale tail. */
    method ExportSlot(p: nat, elfObject: bool)
      requires Valid() && hashing && count <= p < |syms|
      modifies this`syms
      ensures Valid() && Tab() == old(Tab()) && |syms| == old(|syms|)
      ensures forall k :: 0 <= k < |syms| && k != p ==> syms[k] == old(syms)[k]
      ensures syms[p] == Sym(old(syms)[p].name, Exported(Entry("", old(syms)[p].attr), elfObject).attr)
      ensures var was := old(syms)[p].attr;
              if was.shndx != SHN_UNDEF then syms[p].attr == was
              else
                var bind := if was.bind == STB_LOCAL then STB_GLOBAL else was.bind;
                syms[p].attr == was.(bind := bind, typ := if bind == STB_GLOBAL && elfObject then STT_NOTYPE else was.typ)
    {
      var sym := syms[p];
      if !Defined(sym.attr) {
        var symBind, symType := sym.attr.bind, sym.attr.typ;
        if symBind == STB_LOCAL {
          symBind := STB_GLOBAL;
        }
        if symBind == STB_GLOBAL && elfObject {
          symType := STT_NOTYPE;
        }
        syms := syms[p := Sym(sym.name, sym.attr.(bind := symBind, typ := symType))];
        assert Tab() == old(Tab());
      }
    }

    method UpdateRelocs(oldToNew: seq<nat>, firstSym: nat)
      requires RelocsBelow(sections, firstSym + |oldToNew|)
      modifies this`sections
      ensures AllRenumbered(old(sections), sections, oldToNew, firstSym)
      ensures Valid() == old(Valid())
    {
      sections := Renumber(sections, oldToNew, firstSym);
    }

    /** Cut the sections back to where the file began and attach the index again. */
    method Reattach()
      requires Valid() && !hashing
      modifies this`count, this`strCount, this`hashing
      ensures Valid() && hashing && count == symMark && strCount == strMark
      ensures Tab() == old(Tab())[..symMark]
      ensures syms == old(syms) && strs == old(strs) && old(strCount) <= |strs|
      ensures Terminated(syms, old(count), strs, old(strCount)) && Ordered(syms, symMark, old(count), strs, strMark)
      ensures Unread(Buffers(syms, strs), strCount, Buffers(syms, strs), old(strCount), symMark, old(count))
    {
      count, strCount, hashing := symMark, strMark, true;
      assert Tab() == old(Tab())[..symMark] == Tab()[..count];
    }

    /** One symbol of the file: read at `p`, in the stale tail, and added to the table. */
    method MergeSym(p: nat, elfObject: bool, ghost was: Buffers, ghost strEnd: nat, ghost first: nat, ghost end: nat)
      returns (t: nat)
      requires Valid() && hashing && count <= p && first <= p < end
      requires Unread(Buffers(syms, strs), strCount, was, strEnd, p, end)
      requires Terminated(was.syms, end, was.strs, strEnd) && Ordered(was.syms, first, end, was.strs, strMark)
      modifies this`syms, this`count, this`strs, this`strCount, this`hash, this`nbHashed, this`clashes
      ensures Valid() && count <= p + 1
      ensures Unread(Buffers(syms, strs), strCount, was, strEnd, p + 1, end)
      ensures var r := Add(old(Tab()), Exported(Entries(was.syms, end, was.strs)[p], elfObject), cfg);
              Tab() == r.tab && t == r.index && clashes == old(clashes) + if r.clash then 1 else 0
    {
      hide Add, IndexedUpTo, CStr, Latest;
      ghost var before := Buffers(syms, strs);
      UnreadName(before, strCount, was, strEnd, p, end);
      ExportSlot(p, elfObject);
      var sym := syms[p];
      t := SetSym(sym.attr, CStr(strs, sym.name));
      UnreadNext(before, old(strCount), Buffers(syms, strs), strCount, was, strEnd, p, end, first, strMark);
    }

    /** cprimeelf_end_file: merging the file's symbols over their own storage
        gives what merging from an untouched copy would. */
    method EndFile(elfObject: bool)
      requires Valid() && !hashing && RelocsBelow(sections, count)
      modifies this
      ensures Valid() && hashing
      ensures var m := Merge(old(Tab())[..old(symMark)], old(Tab())[old(symMark)..], elfObject, cfg);
              && Tab() == m.tab && clashes == old(clashes) + m.clashes
              && AllRenumbered(old(sections), sections, m.tr, old(symMark))
    {
      hide Valid, Add, Exported, Unread, Terminated, Ordered, Merge;
      var firstSym, nbSyms := symMark, count - symMark;
      ghost var prior, file := Tab()[..firstSym], Tab()[firstSym..];
      ghost var was, end, strEnd := Buffers(syms, strs), count, strCount;
      Reattach();
      var tr: seq<nat> := [];
      MergeNone(prior, file, elfObject, cfg);
      ghost var m := Merge(prior, file[..0], elfObject, cfg);
      for i := 0 to nbSyms
        invariant Valid() && hashing && count <= firstSym + i && sections == old(sections) && strMark == old(strMark)
        invariant Unread(Buffers(syms, strs), strCount, was, strEnd, firstSym + i, end)
        invariant m == Merge(prior, file[..i], elfObject, cfg)
        invariant Tab() == m.tab && tr == m.tr && clashes == old(clashes) + m.clashes
      {
        var t := MergeSym(firstSym + i, elfObject, was, strEnd, firstSym, end);
        MergeSnoc(prior, file, i, elfObject, cfg);
        m := Merge(prior, file[..i + 1], elfObject, cfg);
        tr := tr + [t];
      }
      assert file[..nbSyms] == file;
      UpdateRelocs(tr, firstSym);
      assert Tab() == m.tab;
    }

    /** sort_syms: the index is not rebuilt, but every relocation keeps its referent. */
    method SortSyms() returns (nLocals: nat, ghost tr: seq<nat>)
      requires Valid() && RelocsBelow(sections, count)
      modifies this`syms, this`sections
      ensures |tr| == count <= |syms|
      ensures forall k :: 0 <= k < count ==> tr[k] < count && Tab()[tr[k]] == old(Tab())[k]
      ensures forall j, k :: 0 <= j < k < count ==> tr[j] != tr[k]
      ensures forall j, k :: 0 <= j < k < count && Global(old(Tab())[j].attr) == Global(old(Tab())[k].attr) ==> tr[j] < tr[k]
      ensures forall k :: 0 <= k < count ==> (k < nLocals <==> !Global(Tab()[k].attr))
      ensures AllRenumbered(old(sections), sections, tr, 0)
    {
      hide Valid, RelocsBelow;
      var newSyms, oldToNew;
      newSyms, oldToNew, nLocals := LocalsFirst(syms[..count]);
      syms := newSyms + syms[count..];
      tr := oldToNew;
      UpdateRelocs(oldToNew, 0);
    }
  }
}
