/** Extraction of archive members on demand: the indexed scan of one archive,
    the quick test whether scanning it again could help, and the ordered rescan
    of all archives up to a fixpoint. */
module Archives {
  import opened ElfSymbols
  import opened Bits

  /** What the scan reads of the link: the symbol table and the private table of
      DLL symbols. */
  datatype World = World(tab: seq<Entry>, dyn: seq<Entry>)

  datatype Outcome = Loaded(world: World) | Failed

  /** Code outside this model: pe_weak_external_search, loading the object at an
      offset of an archive (its header check included), and elf_hash. */
  datatype Env = Env(weakOk: (World, nat) -> bool, load: (nat, nat, World) -> Outcome, hashOf: string -> nat)

  /** One archive: parallel arrays of indexed names, member offsets and loaded
      flags, and the hash index over the names. */
  datatype Archive = Archive(names: seq<string>, offsets: seq<nat>, loaded: seq<bool>,
                             buckets: seq<int>, next: seq<int>)

  const IMP := "__imp_"
  const IMP_SHORT := "_imp__"

  /** The DLL name behind an import symbol. */
  function ImportName(name: string): string {
    if IMP <= name then name[6..] else if IMP_SHORT <= name then name[6..] else name
  }

  predicate Imported(w: World, name: string) { Latest(w.dyn, ImportName(name), |w.dyn|) != 0 }

  /** The symbol is referenced, undefined, allowed to search, and no import. */
  predicate Wanted(w: World, name: string, env: Env) {
    var k := Latest(w.tab, name, |w.tab|);
    k != 0 && !Defined(w.tab[k].attr) && env.weakOk(w, k) && !Imported(w, name)
  }

  /** A DLL symbol answers this name, given directly or as an import of it. */
  ghost predicate FromDll(dyn: seq<Entry>, x: string) {
    exists i :: 0 < i < |dyn| && dyn[i].attr.bind != STB_LOCAL && Answers(dyn[i].name, x)
  }

  /** "__imp_y" and "_imp__y" ask for y, any other name for itself. */
  predicate Answers(y: string, x: string) {
    || x == "__imp_" + y || x == "_imp__" + y
    || (x == y && !("__imp_" <= x) && !("_imp__" <= x))
  }

  /** The name has no use for an archive: nothing refers to it, or it is defined, or its
      weak external may not search, or a DLL answers it. */
  ghost predicate Settled(w: World, x: string, env: Env) {
    var s := Latest(w.tab, x, |w.tab|);
    s == 0 || w.tab[s].attr.shndx != SHN_UNDEF || !env.weakOk(w, s) || FromDll(w.dyn, x)
  }

  lemma ImportedFromDll(w: World, x: string)
    ensures Imported(w, x) <==> FromDll(w.dyn, x)
  {
    var y := ImportName(x);
    assert forall z: string :: Answers(z, x) <==> z == y by {
      forall z: string ensures Answers(z, x) <==> z == y {
        PrefixTaken(x, z);
      }
    }
    var k := Latest(w.dyn, y, |w.dyn|);
    if i :| 0 < i < |w.dyn| && w.dyn[i].attr.bind != STB_LOCAL && Answers(w.dyn[i].name, x) {
      assert w.dyn[i].name == y;
    }
  }

  lemma PrefixTaken(x: string, z: string)
    ensures Answers(z, x) <==> z == ImportName(x)
  {
    assert IMP <= x ==> x == IMP + x[6..];
    assert IMP_SHORT <= x ==> x == IMP_SHORT + x[6..];
    assert (IMP + z)[6..] == z && (IMP_SHORT + z)[6..] == z;
    assert (IMP + z)[..6] == IMP && (IMP_SHORT + z)[..6] == IMP_SHORT;
  }

  lemma WantedIsUnsettled(w: World, x: string, env: Env)
    ensures Wanted(w, x, env) <==> !Settled(w, x, env)
  {
    hide FromDll, Imported;
    ImportedFromDll(w, x);
  }

  // ---- the name index -----------------------------------------------------------

  function Slot(env: Env, name: string, nb: nat): (b: nat)
    requires nb > 0
    ensures b < nb
  {
    AndAtMost(env.hashOf(name), nb - 1);
    And(env.hashOf(name), nb - 1)
  }

  ghost function Top(names: seq<string>, env: Env, nb: nat, b: nat, limit: nat): (j: int)
    requires nb > 0 && limit <= |names|
    ensures -1 <= j < limit
  {
    if limit == 0 then -1
    else if Slot(env, names[limit - 1], nb) == b then limit - 1
    else Top(names, env, nb, b, limit - 1)
  }

  /** Bucket heads and links after the first `n` names. */
  ghost predicate Chained(a: Archive, env: Env, n: nat) {
    && n <= |a.names| == |a.next| && |a.buckets| > 0
    && (forall b :: 0 <= b < |a.buckets| ==> a.buckets[b] == Top(a.names, env, |a.buckets|, b, n))
    && (forall j :: 0 <= j < n ==>
          a.next[j] == Top(a.names, env, |a.buckets|, Slot(env, a.names[j], |a.buckets|), j))
  }

  /** Entries of one member are loaded together. */
  ghost predicate Together(a: Archive) {
    && |a.names| == |a.offsets| == |a.loaded|
    && forall i, j :: 0 <= i < |a.names| && 0 <= j < |a.names| && a.offsets[i] == a.offsets[j] ==> a.loaded[i] == a.loaded[j]
  }

  ghost predicate ArchiveOk(a: Archive, env: Env)
    ensures ArchiveOk(a, env) ==> |a.names| == |a.offsets| == |a.loaded|
  { Together(a) && Chained(a, env, |a.names|) }

  lemma LinkOne(a: Archive, env: Env, n: nat)
    requires Chained(a, env, n) && n < |a.names|
    ensures var h := Slot(env, a.names[n], |a.buckets|);
            Chained(a.(next := a.next[n := a.buckets[h]], buckets := a.buckets[h := n]), env, n + 1)
  {
    var next := n + 1;
    forall b | 0 <= b < |a.buckets|
      ensures Top(a.names, env, |a.buckets|, b, next) ==
              if Slot(env, a.names[n], |a.buckets|) == b then n else Top(a.names, env, |a.buckets|, b, n)
    {}
  }

  /** A power of two that suffices, up to 65536. */
  method BucketCount(n: nat) returns (buckets: nat)
    ensures PowerOfTwo(buckets) && 16 <= buckets <= 65536 && (n <= buckets || buckets == 65536) && (buckets == 16 || buckets < 2 * n)
  {
    buckets := 16;
    while buckets < n && buckets < 65536
      invariant PowerOfTwo(buckets) && (buckets == 16 || buckets < 2 * n)
      invariant buckets == 65536 || buckets in {16, 32, 64, 128, 256, 512, 1024, 2048, 4096, 8192, 16384, 32768}
    {
      buckets := buckets * 2;
    }
  }

  lemma NothingChained(a: Archive, env: Env)
    requires |a.buckets| > 0 && |a.next| == |a.names| && forall b :: 0 <= b < |a.buckets| ==> a.buckets[b] == -1
    ensures Chained(a, env, 0)
  {}

  method IndexNames(names: seq<string>, offsets: seq<nat>, env: Env) returns (a: Archive)
    requires |names| == |offsets|
    ensures ArchiveOk(a, env) && a.names == names && a.offsets == offsets && a.loaded == seq(|names|, _ => false)
    ensures PowerOfTwo(|a.buckets|) && 16 <= |a.buckets| <= 65536 && (|names| <= |a.buckets| || |a.buckets| == 65536)
    ensures |a.buckets| == 16 || |a.buckets| < 2 * |names|
  {
    var buckets := BucketCount(|names|);
    hide And, Top, Slot;
    a := Archive(names, offsets, seq(|names|, _ => false), seq(buckets, _ => -1), seq(|names|, _ => -1));
    NothingChained(a, env);
    for j := 0 to |names|
      invariant Chained(a, env, j) && a.names == names && a.offsets == offsets && a.loaded == seq(|names|, _ => false)
      invariant |a.buckets| == buckets
    {
      LinkOne(a, env, j);
      var h := Slot(env, names[j], |a.buckets|);
      a := a.(next := a.next[j := a.buckets[h]], buckets := a.buckets[h := j]);
    }
  }

  /** The walk down one chain meets every entry of that name. */
  lemma {:induction false} TopCovers(names: seq<string>, env: Env, nb: nat, b: nat, limit: nat, j: nat)
    requires nb > 0 && limit <= |names| && j < limit && Slot(env, names[j], nb) == b
    ensures j <= Top(names, env, nb, b, limit)
  {
    if j < limit - 1 && Slot(env, names[limit - 1], nb) != b {
      TopCovers(names, env, nb, b, limit - 1, j);
    }
  }

  lemma {:induction false} TopInBucket(names: seq<string>, env: Env, nb: nat, b: nat, limit: nat)
    requires nb > 0 && limit <= |names|
    ensures var j := Top(names, env, nb, b, limit); j >= 0 ==> Slot(env, names[j], nb) == b
  {
    if limit > 0 {
      TopInBucket(names, env, nb, b, limit - 1);
    }
  }

  /** An unloaded entry with this name. */
  predicate Provides(a: Archive, name: string) {
    exists i :: 0 <= i < |a.names| && !IsLoaded(a, i) && a.names[i] == name
  }

  predicate IsLoaded(a: Archive, i: nat) { i < |a.loaded| && a.loaded[i] }

  /** The chain walk of pe_earlier_archive_provider and pe_archive_needs_rescan. */
  method FindProvider(a: Archive, name: string, env: Env) returns (found: bool)
    requires ArchiveOk(a, env)
    ensures found == Provides(a, name)
  {
    hide Slot, Top, Together;
    var nb := |a.buckets|;
    var b := Slot(env, name, nb);
    var j := a.buckets[b];
    ghost var limit: nat := |a.names|;
    while j >= 0
      invariant limit <= |a.names| && j == Top(a.names, env, nb, b, limit)
      invariant forall i :: limit <= i < |a.names| ==> IsLoaded(a, i) || a.names[i] != name
      decreases j
    {
      TopInBucket(a.names, env, nb, b, limit);
      if !a.loaded[j] && a.names[j] == name {
        return true;
      }
      SkipsOthers(a, name, env, b, limit, j);
      limit := j;
      j := a.next[j];
    }
    SkipsOthers(a, name, env, b, limit, -1);
    found := false;
  }

  lemma SkipsOthers(a: Archive, name: string, env: Env, b: nat, limit: nat, j: int)
    requires ArchiveOk(a, env) && limit <= |a.names| && b == Slot(env, name, |a.buckets|)
    requires j == Top(a.names, env, |a.buckets|, b, limit)
    ensures forall i :: j < i < limit && 0 <= i ==> a.names[i] != name
  {
    forall i | j < i < limit && 0 <= i
      ensures a.names[i] != name
    {
      if a.names[i] == name {
        TopCovers(a.names, env, |a.buckets|, b, limit, i);
      }
    }
  }

  // ---- counting what is left -------------------------------------------------------

  function Left(loaded: seq<bool>): nat {
    if loaded == [] then 0 else (if loaded[0] then 0 else 1) + Left(loaded[1..])
  }

  lemma {:induction false} LeftShrinks(a: seq<bool>, b: seq<bool>)
    requires |a| == |b| && forall i :: 0 <= i < |a| && a[i] ==> b[i]
    ensures Left(b) <= Left(a)
    ensures (exists i :: 0 <= i < |a| && !a[i] && b[i]) ==> Left(b) < Left(a)
  {
    if a != [] {
      LeftShrinks(a[1..], b[1..]);
      if exists i :: 0 <= i < |a| && !a[i] && b[i] {
        var i :| 0 <= i < |a| && !a[i] && b[i];
        assert i > 0 ==> !a[1..][i - 1] && b[1..][i - 1];
      }
    }
  }

  function TotalLeft(archives: seq<Archive>): nat {
    if archives == [] then 0 else Left(archives[0].loaded) + TotalLeft(archives[1..])
  }

  lemma {:induction false} TotalLeftUpdate(archives: seq<Archive>, k: nat, a: Archive)
    requires k < |archives|
    ensures TotalLeft(archives[k := a]) == TotalLeft(archives) - Left(archives[k].loaded) + Left(a.loaded)
  {
    if k == 0 {
      assert archives[k := a][1..] == archives[1..];
    } else {
      assert archives[k := a][1..] == archives[1..][k - 1 := a];
      TotalLeftUpdate(archives[1..], k - 1, a);
    }
  }

  // ---- which entries may be extracted -------------------------------------------------

  ghost predicate AllOk(archives: seq<Archive>, env: Env) {
    forall k :: 0 <= k < |archives| ==> ArchiveOk(archives[k], env)
  }

  /** An archive earlier on the link line still provides the name. */
  ghost predicate Deferred(archives: seq<Archive>, k: nat, name: string, env: Env)
    requires AllOk(archives, env) && k <= |archives|
  {
    exists j :: 0 <= j < k && Provides(archives[j], name)
  }

  ghost predicate Eligible(archives: seq<Archive>, k: nat, i: nat, w: World, env: Env)
    requires AllOk(archives, env) && k < |archives| && i < |archives[k].names|
  {
    && !IsLoaded(archives[k], i) && Wanted(w, archives[k].names[i], env)
    && !Deferred(archives, k, archives[k].names[i], env)
  }

  ghost predicate Exhausted(archives: seq<Archive>, k: nat, w: World, env: Env)
    requires AllOk(archives, env) && k < |archives|
  {
    forall i :: 0 <= i < |archives[k].names| ==> !Eligible(archives, k, i, w, env)
  }

  /** No unloaded entry of any archive could resolve anything. */
  ghost predicate Fixpoint(archives: seq<Archive>, w: World, env: Env)
    requires AllOk(archives, env)
  {
    forall k, i :: 0 <= k < |archives| && 0 <= i < |archives[k].names| && !IsLoaded(archives[k], i) ==>
      !Wanted(w, archives[k].names[i], env)
  }

  /** Deferring to earlier archives loses nothing in the end. */
  lemma ExhaustedIsFixpoint(archives: seq<Archive>, w: World, env: Env)
    requires AllOk(archives, env) && forall k :: 0 <= k < |archives| ==> Exhausted(archives, k, w, env)
    ensures Fixpoint(archives, w, env)
  {
    forall k, i | 0 <= k < |archives| && 0 <= i < |archives[k].names| && !IsLoaded(archives[k], i)
      ensures !Wanted(w, archives[k].names[i], env)
    {
      NotWanted(archives, w, env, k, i);
    }
  }

  lemma {:induction false} NotWanted(archives: seq<Archive>, w: World, env: Env, k: nat, i: nat)
    requires AllOk(archives, env) && forall k :: 0 <= k < |archives| ==> Exhausted(archives, k, w, env)
    requires k < |archives| && i < |archives[k].names| && !IsLoaded(archives[k], i)
    ensures !Wanted(w, archives[k].names[i], env)
    decreases k
  {
    var name := archives[k].names[i];
    assert Exhausted(archives, k, w, env) && !Eligible(archives, k, i, w, env);
    if Deferred(archives, k, name, env) {
      var j :| 0 <= j < k && Provides(archives[j], name);
      var m :| 0 <= m < |archives[j].names| && !IsLoaded(archives[j], m) && archives[j].names[m] == name;
      NotWanted(archives, w, env, j, m);
    }
  }

  /** pe_archive_needs_rescan on values. */
  ghost predicate NeedsRescan(a: Archive, w: World, env: Env) {
    exists i :: 1 <= i < |w.tab| && CouldUse(a, w, i, env)
  }

  ghost predicate CouldUse(a: Archive, w: World, i: nat, env: Env)
    requires i < |w.tab|
  {
    && !Defined(w.tab[i].attr) && Global(w.tab[i].attr) && env.weakOk(w, i)
    && !Imported(w, w.tab[i].name) && Provides(a, w.tab[i].name)
  }

  /** Symbol i is referenced and undefined, may search, no DLL answers it, and the archive
      has an unloaded entry of its name. */
  ghost predicate Unresolved(a: Archive, w: World, i: nat, env: Env)
    requires i < |w.tab|
  {
    && w.tab[i].attr.shndx == SHN_UNDEF && w.tab[i].attr.bind != STB_LOCAL && env.weakOk(w, i)
    && !FromDll(w.dyn, w.tab[i].name)
    && exists j :: 0 <= j < |a.names| && j < |a.loaded| && !a.loaded[j] && a.names[j] == w.tab[i].name
  }

  lemma RescanMeans(a: Archive, w: World, env: Env)
    requires ArchiveOk(a, env)
    ensures NeedsRescan(a, w, env) <==> exists i :: 1 <= i < |w.tab| && Unresolved(a, w, i, env)
  {
    forall i | 1 <= i < |w.tab| ensures CouldUse(a, w, i, env) <==> Unresolved(a, w, i, env) {
      ImportedFromDll(w, w.tab[i].name);
    }
    hide CouldUse, Unresolved;
  }

  lemma EligibleNeedsRescan(archives: seq<Archive>, k: nat, i: nat, w: World, env: Env)
    requires AllOk(archives, env) && k < |archives| && i < |archives[k].names| && Eligible(archives, k, i, w, env)
    ensures NeedsRescan(archives[k], w, env)
  {
    assert CouldUse(archives[k], w, Latest(w.tab, archives[k].names[i], |w.tab|), env);
  }

  /** When the quick test says no, scanning the archive would extract nothing. */
  lemma NoRescanNoExtraction(archives: seq<Archive>, k: nat, w: World, env: Env)
    requires AllOk(archives, env) && k < |archives| && !NeedsRescan(archives[k], w, env)
    ensures Exhausted(archives, k, w, env)
  {
    forall i | 0 <= i < |archives[k].names|
      ensures !Eligible(archives, k, i, w, env)
    {
      if Eligible(archives, k, i, w, env) {
        EligibleNeedsRescan(archives, k, i, w, env);
      }
    }
  }

  /** What an exhausted archive still holds unloaded is of no use, or an archive before it
      provides it too. */
  lemma ExhaustedMeans(archives: seq<Archive>, k: nat, w: World, env: Env)
    requires AllOk(archives, env) && k < |archives|
    ensures Exhausted(archives, k, w, env) <==>
            forall i :: 0 <= i < |archives[k].names| && !archives[k].loaded[i] ==>
              Settled(w, archives[k].names[i], env) || OfferedBefore(archives, k, archives[k].names[i])
  {
    hide Wanted, Settled;
    assert ArchiveOk(archives[k], env);
    forall i | 0 <= i < |archives[k].names|
      ensures Eligible(archives, k, i, w, env) <==>
              !archives[k].loaded[i] && !Settled(w, archives[k].names[i], env) && !OfferedBefore(archives, k, archives[k].names[i])
    {
      WantedIsUnsettled(w, archives[k].names[i], env);
      DeferredIsOffered(archives, k, archives[k].names[i], env);
    }
  }

  /** An unloaded entry of that name in an archive before k. */
  ghost predicate OfferedBefore(archives: seq<Archive>, k: nat, x: string)
    requires k <= |archives|
  {
    exists j, i :: 0 <= j < k && 0 <= i < |archives[j].names| && i < |archives[j].loaded| && archives[j].names[i] == x
                   && !archives[j].loaded[i]
  }

  lemma DeferredIsOffered(archives: seq<Archive>, k: nat, x: string, env: Env)
    requires AllOk(archives, env) && k <= |archives|
    ensures Deferred(archives, k, x, env) <==> OfferedBefore(archives, k, x)
  {
    forall j | 0 <= j < k ensures |archives[j].names| == |archives[j].loaded| {
      assert ArchiveOk(archives[j], env);
    }
    if Deferred(archives, k, x, env) {
      var j :| 0 <= j < k && Provides(archives[j], x);
      var i :| 0 <= i < |archives[j].names| && !IsLoaded(archives[j], i) && archives[j].names[i] == x;
      assert !archives[j].loaded[i];
    }
    if OfferedBefore(archives, k, x) {
      var j, i :| 0 <= j < k && 0 <= i < |archives[j].names| && i < |archives[j].loaded| && archives[j].names[i] == x
                  && !archives[j].loaded[i];
      assert Provides(archives[j], x);
    }
  }

  /** At the fixpoint whatever is unloaded is of no use. */
  lemma FixpointMeans(archives: seq<Archive>, w: World, env: Env)
    requires AllOk(archives, env)
    ensures Fixpoint(archives, w, env) <==>
            forall k, i :: 0 <= k < |archives| && 0 <= i < |archives[k].names| && i < |archives[k].loaded| && !archives[k].loaded[i] ==>
              Settled(w, archives[k].names[i], env)
  {
    hide Wanted, Settled;
    forall k | 0 <= k < |archives| ensures |archives[k].names| == |archives[k].loaded| {
      assert ArchiveOk(archives[k], env);
    }
    forall k, i | 0 <= k < |archives| && 0 <= i < |archives[k].names|
      ensures Wanted(w, archives[k].names[i], env) <==> !Settled(w, archives[k].names[i], env)
    {
      WantedIsUnsettled(w, archives[k].names[i], env);
    }
  }

  // ---- the link -----------------------------------------------------------------------

  /** One extraction: from which archive, for which entry, in which world, and the
      archives as they were. */
  datatype Step = Step(archive: nat, entry: nat, world: World, before: seq<Archive>)

  /** Only loaded flags change, and only from false to true; archives are added behind. */
  ghost predicate Since(was: seq<Archive>, now: seq<Archive>) {
    |was| <= |now| && forall k :: 0 <= k < |was| ==> FurtherOne(was[k], now[k])
  }

  lemma SinceTrans(a: seq<Archive>, b: seq<Archive>, c: seq<Archive>)
    requires Since(a, b) && Since(b, c)
    ensures Since(a, c)
  {
    forall k | 0 <= k < |a| ensures FurtherOne(a[k], c[k]) {
      assert FurtherOne(a[k], b[k]) && FurtherOne(b[k], c[k]);
    }
  }

  /** The entry was eligible in its moment, and its member is loaded since. */
  ghost predicate StepOk(s: Step, archives: seq<Archive>, env: Env) {
    && AllOk(s.before, env) && s.archive < |s.before| && s.entry < |s.before[s.archive].names|
    && Eligible(s.before, s.archive, s.entry, s.world, env)
    && Since(s.before, archives) && IsLoaded(archives[s.archive], s.entry)
  }

  /** Every extraction was of a symbol wanted in its moment, from the first archive that
      still provided it, with the members extracted before it loaded. */
  ghost predicate History(steps: seq<Step>, archives: seq<Archive>, env: Env) {
    && (forall t :: 0 <= t < |steps| ==> StepOk(steps[t], archives, env))
    && forall t, u :: 0 <= t < u < |steps| ==> StepOk(steps[t], steps[u].before, env)
  }

  function OffsetOf(s: Step): nat {
    if s.archive < |s.before| && s.entry < |s.before[s.archive].offsets| then s.before[s.archive].offsets[s.entry] else 0
  }

  lemma StepLater(s: Step, was: seq<Archive>, now: seq<Archive>, env: Env)
    requires StepOk(s, was, env) && Since(was, now)
    ensures StepOk(s, now, env)
  {
    hide Eligible, AllOk;
    SinceTrans(s.before, was, now);
    assert FurtherOne(was[s.archive], now[s.archive]);
  }

  lemma HistoryLater(steps: seq<Step>, was: seq<Archive>, now: seq<Archive>, env: Env)
    requires History(steps, was, env) && Since(was, now)
    ensures History(steps, now, env)
  {
    hide StepOk, Since;
    forall t | 0 <= t < |steps| ensures StepOk(steps[t], now, env) {
      StepLater(steps[t], was, now, env);
    }
  }

  /** No member is extracted twice. */
  lemma ExtractedOnce(steps: seq<Step>, archives: seq<Archive>, env: Env, t: nat, u: nat)
    requires History(steps, archives, env) && t < u < |steps| && steps[t].archive == steps[u].archive
    ensures OffsetOf(steps[t]) != OffsetOf(steps[u])
  {
    var s, r := steps[t], steps[u];
    assert StepOk(s, r.before, env) && StepOk(r, archives, env);
    assert ArchiveOk(r.before[r.archive], env) && FurtherOne(s.before[s.archive], r.before[s.archive]);
  }

  /** Every extraction had a reason: its name was unsettled then, its entry unloaded, and
      no archive before offered it. */
  lemma ExtractedOnDemand(steps: seq<Step>, archives: seq<Archive>, env: Env, t: nat)
    requires History(steps, archives, env) && t < |steps|
    ensures var s := steps[t];
            && s.archive < |s.before| && s.entry < |s.before[s.archive].names| && s.entry < |s.before[s.archive].loaded|
            && var x := s.before[s.archive].names[s.entry];
               !Settled(s.world, x, env) && !s.before[s.archive].loaded[s.entry] && !OfferedBefore(s.before, s.archive, x)
  {
    var s := steps[t];
    assert StepOk(s, archives, env) && ArchiveOk(s.before[s.archive], env);
    hide Wanted, Settled, Deferred, OfferedBefore;
    WantedIsUnsettled(s.world, s.before[s.archive].names[s.entry], env);
    DeferredIsOffered(s.before, s.archive, s.before[s.archive].names[s.entry], env);
  }

  /** From `start`, each extraction loaded its member into the world it was wanted
      in, and the last left `world`. */
  ghost predicate Threaded(start: World, steps: seq<Step>, world: World, env: Env) {
    && start == WorldAt(steps, world, 0)
    && forall t :: 0 <= t < |steps| ==>
         env.load(steps[t].archive, OffsetOf(steps[t]), WorldAt(steps, world, t)) == Loaded(WorldAt(steps, world, t + 1))
  }

  /** The world before extraction t; the present one after the last. */
  function WorldAt(steps: seq<Step>, world: World, t: nat): World {
    if t < |steps| then steps[t].world else world
  }

  lemma ThreadedGrows(start: World, steps: seq<Step>, world: World, env: Env, s: Step, next: World)
    requires Threaded(start, steps, world, env) && s.world == world
    requires env.load(s.archive, OffsetOf(s), world) == Loaded(next)
    ensures Threaded(start, steps + [s], next, env)
  {
    var all := steps + [s];
    forall t | 0 <= t < |all|
      ensures env.load(all[t].archive, OffsetOf(all[t]), WorldAt(all, next, t)) == Loaded(WorldAt(all, next, t + 1))
    {
      if t < |steps| {
        assert WorldAt(all, next, t) == WorldAt(steps, world, t) && WorldAt(all, next, t + 1) == WorldAt(steps, world, t + 1);
      }
    }
  }

  /** The same, and no archive is added. */
  ghost predicate Further(was: seq<Archive>, now: seq<Archive>) { |now| == |was| && Since(was, now) }

  ghost predicate FurtherOne(was: Archive, now: Archive) {
    && |now.loaded| == |was.loaded| && now == was.(loaded := now.loaded)
    && forall i :: 0 <= i < |was.loaded| && was.loaded[i] ==> now.loaded[i]
  }

  /** Every entry of the member at `off` is marked, in one pass over the index. */
  method MarkMember(a: Archive, off: nat, env: Env) returns (r: Archive)
    requires ArchiveOk(a, env)
    ensures ArchiveOk(r, env) && FurtherOne(a, r)
    ensures forall i :: 0 <= i < |a.names| ==> r.loaded[i] == (a.loaded[i] || a.offsets[i] == off)
  {
    var loaded := a.loaded;
    for i := 0 to |a.names|
      invariant |loaded| == |a.names|
      invariant forall j :: 0 <= j < |a.names| ==> loaded[j] == (a.loaded[j] || (j < i && a.offsets[j] == off))
    {
      if a.offsets[i] == off {
        loaded := loaded[i := true];
      }
    }
    r := a.(loaded := loaded);
  }

  /** One more extraction. */
  lemma HistoryGrows(steps: seq<Step>, was: seq<Archive>, now: seq<Archive>, k: nat, i: nat, w: World, env: Env)
    requires History(steps, was, env) && AllOk(was, env) && Since(was, now) && k < |was| && i < |was[k].names|
    requires Eligible(was, k, i, w, env) && IsLoaded(now[k], i)
    ensures History(steps + [Step(k, i, w, was)], now, env)
  {
    HistoryLater(steps, was, now, env);
    hide Since, Eligible, AllOk;
    var all := steps + [Step(k, i, w, was)];
    forall t, u | 0 <= t < u < |all| ensures StepOk(all[t], all[u].before, env) {
      assert u < |steps| ==> all[u] == steps[u];
    }
  }

  class Linker {
    const env: Env
    var world: World
    var archives: seq<Archive>
    var membersLoaded: nat
    ghost var steps: seq<Step>
    ghost const start: World

    ghost predicate Valid()
      reads this
    {
      && AllOk(archives, env) && History(steps, archives, env) && membersLoaded == |steps|
      && Threaded(start, steps, world, env)
    }

    constructor (env: Env, world: World)
      ensures Valid() && this.env == env && this.world == world && archives == [] && steps == [] && start == world
    {
      this.env, this.world, archives, membersLoaded, steps, start := env, world, [], 0, [], world;
    }

    /** An archive seen for the first time, kept with nothing loaded from it. */
    method AddArchive(names: seq<string>, offsets: seq<nat>)
      requires Valid() && |names| == |offsets|
      modifies this`archives
      ensures Valid() && |archives| == |old(archives)| + 1 && archives[..|old(archives)|] == old(archives)
      ensures archives[|old(archives)|].names == names && archives[|old(archives)|].offsets == offsets
      ensures forall i :: 0 <= i < |names| ==> !IsLoaded(archives[|old(archives)|], i)
    {
      var a := IndexNames(names, offsets, env);
      ghost var was := archives;
      archives := archives + [a];
      HistoryLater(steps, was, archives, env);
    }

    /** One look at index entry i: extract its member if it is eligible now. */
    method TryEntry(k: nat, i: nat) returns (ok: bool, bound: bool)
      requires Valid() && k < |archives| && i < |archives[k].names|
      modifies this
      ensures Valid() && Further(old(archives), archives)
      ensures bound || !ok <==> Eligible(old(archives), k, i, old(world), env)
      ensures bound ==> ok && steps == old(steps) + [Step(k, i, old(world), old(archives))] && TotalLeft(archives) < TotalLeft(old(archives))
      ensures !bound ==> steps == old(steps)
      ensures ok && !bound ==> archives == old(archives) && world == old(world)
      ensures TotalLeft(archives) <= TotalLeft(old(archives))
      ensures forall j :: 0 <= j < |archives| && j != k ==> archives[j] == old(archives)[j]
      ensures forall j :: 0 <= j < |archives[k].names| && archives[k].offsets[j] != archives[k].offsets[i] ==>
                archives[k].loaded[j] == old(archives)[k].loaded[j]
    {
      hide History, Threaded, TotalLeft, Left, Chained, Wanted;
      ok, bound := true, false;
      var a := archives[k];
      assert ArchiveOk(a, env);
      if a.loaded[i] || !Wanted(world, a.names[i], env) {
        return;
      }
      var deferred := EarlierProvider(k, a.names[i]);
      if deferred {
        return;
      }
      var off := a.offsets[i];
      assert ArchiveOk(a, env);
      var b := MarkMember(a, off, env);
      ghost var was := archives;
      archives := archives[k := b];
      HistoryGrows(steps, was, archives, k, i, world, env);
      HistoryLater(steps, was, archives, env);
      LeftShrinks(a.loaded, b.loaded);
      TotalLeftUpdate(was, k, b);
      match env.load(k, off, world) {
        case Failed => ok := false;
        case Loaded(w) =>
          ThreadedGrows(start, steps, world, env, Step(k, i, world, was), w);
          steps := steps + [Step(k, i, world, was)];
          world, membersLoaded, bound := w, membersLoaded + 1, true;
      }
    }

    /** pe_earlier_archive_provider */
    method EarlierProvider(k: nat, name: string) returns (found: bool)
      requires AllOk(archives, env) && k <= |archives|
      ensures found == Deferred(archives, k, name, env)
    {
      for j := 0 to k
        invariant forall i :: 0 <= i < j ==> !Provides(archives[i], name)
      {
        assert ArchiveOk(archives[j], env);
        found := FindProvider(archives[j], name, env);
        if found {
          return;
        }
      }
      found := false;
    }

    /** One pass over the index. */
    method Pass(k: nat) returns (ok: bool, bound: bool)
      requires Valid() && k < |archives|
      modifies this
      ensures Valid() && Further(old(archives), archives) && old(steps) <= steps
      ensures ok && !bound ==> Exhausted(archives, k, world, env)
      ensures ok && !bound ==> archives == old(archives) && world == old(world) && steps == old(steps)
      ensures TotalLeft(archives) <= TotalLeft(old(archives))
      ensures bound ==> |steps| > |old(steps)| && TotalLeft(archives) < TotalLeft(old(archives))
      ensures bound ==> !Exhausted(old(archives), k, old(world), env)
    {
      hide History, Eligible, Threaded;
      FurtherSelf(archives);
      ok, bound := true, false;
      var n := |archives[k].names|;
      for i := 0 to n
        invariant Valid() && k < |archives| && |archives[k].names| == n
        invariant Further(old(archives), archives) && old(steps) <= steps
        invariant !bound ==> archives == old(archives) && world == old(world) && steps == old(steps)
        invariant !bound ==> forall j :: 0 <= j < i ==> !Eligible(archives, k, j, world, env)
        invariant bound ==> |steps| > |old(steps)| && TotalLeft(archives) < TotalLeft(old(archives))
        invariant bound ==> !Exhausted(old(archives), k, old(world), env)
      {
        ghost var mid := archives;
        var more;
        ok, more := TryEntry(k, i);
        FurtherTrans(old(archives), mid, archives);
        if !ok {
          return;
        }
        bound := bound || more;
      }
    }

    lemma FurtherTrans(a: seq<Archive>, b: seq<Archive>, c: seq<Archive>)
      requires Further(a, b) && Further(b, c)
      ensures Further(a, c)
    {
      SinceTrans(a, b, c);
    }

    /** cprime_load_alacarte: passes over the index until one extracts nothing. */
    method LoadAlacarte(k: nat) returns (ok: bool)
      requires Valid() && k < |archives|
      modifies this
      ensures Valid() && Further(old(archives), archives) && old(steps) <= steps
      ensures ok ==> Exhausted(archives, k, world, env)
      ensures k < |archives| && |archives[k].loaded| == |archives[k].names|
      ensures ok ==> forall i :: 0 <= i < |archives[k].names| && !archives[k].loaded[i] ==>
                Settled(world, archives[k].names[i], env) || OfferedBefore(archives, k, archives[k].names[i])
      ensures ok && Exhausted(old(archives), k, old(world), env) ==> steps == old(steps)
      ensures ok && steps == old(steps) ==> archives == old(archives) && world == old(world)
      ensures TotalLeft(archives) <= TotalLeft(old(archives))
      ensures ok && steps != old(steps) ==> TotalLeft(archives) < TotalLeft(old(archives))
    {
      FurtherSelf(archives);
      while true
        invariant Valid() && k < |archives| && Further(old(archives), archives) && old(steps) <= steps
        invariant steps == old(steps) ==> archives == old(archives) && world == old(world)
        invariant Exhausted(old(archives), k, old(world), env) ==> steps == old(steps)
        invariant TotalLeft(archives) <= TotalLeft(old(archives))
        invariant steps != old(steps) ==> TotalLeft(archives) < TotalLeft(old(archives))
        decreases TotalLeft(archives)
      {
        ghost var mid := archives;
        var bound;
        ok, bound := Pass(k);
        FurtherTrans(old(archives), mid, archives);
        assert ArchiveOk(archives[k], env);
        if !ok || !bound {
          ExhaustedMeans(archives, k, world, env);
          return;
        }
      }
    }

    lemma FurtherSelf(a: seq<Archive>)
      ensures Further(a, a)
    {}

    /** pe_archive_needs_rescan */
    method ArchiveNeedsRescan(k: nat) returns (yes: bool)
      requires Valid() && k < |archives|
      ensures AllOk(archives, env) && yes == NeedsRescan(archives[k], world, env)
      ensures yes <==> exists i :: 1 <= i < |world.tab| && Unresolved(archives[k], world, i, env)
    {
      hide ArchiveOk, History, Threaded, Imported, Provides, Unresolved;
      assert ArchiveOk(archives[k], env);
      RescanMeans(archives[k], world, env);
      var a := archives[k];
      assert ArchiveOk(a, env);
      var i := 1;
      while i < |world.tab|
        invariant forall j :: 1 <= j < i && j < |world.tab| ==> !CouldUse(a, world, j, env)
      {
        var sym := world.tab[i];
        if !Defined(sym.attr) && Global(sym.attr) && env.weakOk(world, i) {
          var found := FindProvider(a, sym.name, env);
          if found && !Imported(world, sym.name) {
            assert CouldUse(a, world, i, env);
            return true;
          }
        }
        i := i + 1;
      }
      yes := false;
    }

    /** pe_rescan_archives without the DEFAULTLIB and alternate-name steps: on
        success nothing that is still wanted could be extracted from anywhere. */
    method RescanArchives() returns (ok: bool)
      requires Valid()
      modifies this
      ensures Valid() && Further(old(archives), archives) && old(steps) <= steps
      ensures ok ==> Fixpoint(archives, world, env)
      ensures ok ==> forall k, i :: 0 <= k < |archives| && 0 <= i < |archives[k].names| && i < |archives[k].loaded| ==>
                archives[k].loaded[i] || Settled(world, archives[k].names[i], env)
    {
      FurtherSelf(archives);
      ok := true;
      while true
        invariant Valid() && Further(old(archives), archives) && old(steps) <= steps
        decreases TotalLeft(archives)
      {
        ghost var mid := archives;
        var before := membersLoaded;
        ok := RescanEach();
        FurtherTrans(old(archives), mid, archives);
        if !ok {
          return;
        }
        if membersLoaded == before {
          ExhaustedIsFixpoint(archives, world, env);
          FixpointMeans(archives, world, env);
          return;
        }
      }
    }

    /** The archives in link order, each scanned only when the quick test says so. */
    method RescanEach() returns (ok: bool)
      requires Valid()
      modifies this
      ensures Valid() && Further(old(archives), archives) && old(steps) <= steps
      ensures ok && steps == old(steps) ==> forall k :: 0 <= k < |archives| ==> Exhausted(archives, k, world, env)
      ensures ok && steps != old(steps) ==> TotalLeft(archives) < TotalLeft(old(archives))
    {
      hide Eligible, StepOk, FurtherOne, NeedsRescan;
      FurtherSelf(archives);
      ok := true;
      for k := 0 to |archives|
        invariant Valid() && Further(old(archives), archives) && old(steps) <= steps
        invariant steps == old(steps) ==> archives == old(archives) && world == old(world)
        invariant steps == old(steps) ==> forall j :: 0 <= j < k ==> Exhausted(archives, j, world, env)
        invariant steps != old(steps) ==> TotalLeft(archives) < TotalLeft(old(archives))
      {
        var needed := ArchiveNeedsRescan(k);
        if needed {
          ghost var mid := archives;
          ok := LoadAlacarte(k);
          FurtherTrans(old(archives), mid, archives);
          if !ok {
            return;
          }
        } else {
          NoRescanNoExtraction(archives, k, world, env);
        }
      }
    }
  }
}
