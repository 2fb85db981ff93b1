/** The collection helpers of `CollectionEx`: three `ForEach` overloads, keyword
    lookup, dictionary building and the projections of an id mapping.

    Host collections (`IEnumerable<T>`, `KeywordCollection`, `IdMapping`,
    `ObjectIdCollection`) are sequences in their enumeration order. A callback
    is a function that maps the state of the world before a call to the state
    after it; a null callback is `None`. */
module CollectionEx {
  import opened Wrappers

  /** The exceptions these helpers throw. */
  datatype CollectionError =
    | ArgumentNull   // ArgumentNullException for a null callback
    | DuplicateKey   // ArgumentException from Dictionary.Add on a key already present

  // ---------------------------------------------------------------------------
  // Running a callback over a sequence

  /** The world after calling `f` once on each element of `xs`, first to last. */
  function Run<S, T>(f: (S, T) -> S, s: S, xs: seq<T>): S
    decreases |xs|
  {
    if xs == [] then s else f(Run(f, s, xs[..|xs| - 1]), xs[|xs| - 1])
  }

  /** Running over `a + b` runs over `a`, then over `b` from where `a` left off. */
  lemma {:induction false} RunAppend<S, T>(f: (S, T) -> S, s: S, a: seq<T>, b: seq<T>)
    ensures Run(f, s, a + b) == Run(f, Run(f, s, a), b)
    decreases |b|
  {
    if b == [] {
      assert a + b == a;
    } else {
      var b' := b[..|b| - 1];
      assert (a + b)[..|a + b| - 1] == a + b';
      RunAppend(f, s, a, b');
    }
  }

  /** A callback that records its argument sees each element once, in order. */
  lemma {:induction false} RunRecords<T>(xs: seq<T>, log: seq<T>)
    ensures Run((l: seq<T>, x: T) => l + [x], log, xs) == log + xs
    decreases |xs|
  {
    if xs != [] {
      var xs' := xs[..|xs| - 1];
      RunRecords(xs', log);
      assert log + xs' + [xs[|xs| - 1]] == log + xs;
    }
  }

  /** `xs` with each element paired with its position. */
  function Indexed<T>(xs: seq<T>): (r: seq<(int, T)>)
    ensures |r| == |xs|
    ensures forall i :: 0 <= i < |xs| ==> r[i] == (i, xs[i])
  {
    seq(|xs|, i requires 0 <= i < |xs| => (i, xs[i]))
  }

  /** An `Action<int, T>` callback as a callback on index/element pairs. */
  function Uncurried<S, T>(f: (S, int, T) -> S): (S, (int, T)) -> S
  {
    (s: S, p: (int, T)) => f(s, p.0, p.1)
  }

  /** `ForEach(source, action)`: a null action throws before any element is
      visited; otherwise the action runs once per element, in order. */
  method ForEach<S, T>(source: seq<T>, action: Option<(S, T) -> S>, world: S)
    returns (r: Result<S, CollectionError>)
    ensures action.None? ==> r == Failure(ArgumentNull)
    ensures action.Some? ==> r == Success(Run(action.value, world, source))
  {
    if action.None? {
      return Failure(ArgumentNull);
    }
    var f := action.value;
    var w := world;
    for i := 0 to |source|
      invariant w == Run(f, world, source[..i])
    {
      assert source[..i + 1][..i] == source[..i];
      w := f(w, source[i]);
    }
    assert source[..|source|] == source;
    return Success(w);
  }

  /** `ForEach(source, (i, x) => ...)`: the action receives the indices 0..n-1
      together with the elements, in order. */
  method ForEachIndexed<S, T>(source: seq<T>, action: Option<(S, int, T) -> S>, world: S)
    returns (r: Result<S, CollectionError>)
    ensures action.None? ==> r == Failure(ArgumentNull)
    ensures action.Some? ==> r == Success(Run(Uncurried(action.value), world, Indexed(source)))
  {
    if action.None? {
      return Failure(ArgumentNull);
    }
    var f := action.value;
    ghost var pairs := Indexed(source);
    var w := world;
    var i := 0;
    while i < |source|
      invariant 0 <= i <= |source|
      invariant w == Run(Uncurried(f), world, pairs[..i])
    {
      assert pairs[..i + 1][..i] == pairs[..i];
      w := f(w, i, source[i]);
      i := i + 1;
    }
    assert pairs[..|source|] == pairs;
    return Success(w);
  }

  // ---------------------------------------------------------------------------
  // The breakable ForEach: the action returns the world and `state.IsRun`

  /** The world and the number of calls made when the loop starts at position
      `from` in world `s` and stops after the first call that leaves IsRun false. */
  function RunUntilStop<S, T>(f: (S, int, T) -> (S, bool), s: S, xs: seq<T>, from: nat): (S, nat)
    requires from <= |xs|
    decreases |xs| - from
  {
    if from == |xs| then (s, from)
    else
      var (s', isRun) := f(s, from, xs[from]);
      if !isRun then (s', from + 1) else RunUntilStop(f, s', xs, from + 1)
  }

  /** The world change of one call, ignoring IsRun. */
  function WorldStep<S, T>(f: (S, int, T) -> (S, bool)): (S, (int, T)) -> S
  {
    (s: S, p: (int, T)) => f(s, p.0, p.1).0
  }

  /** The world just before the call on element `j`, had no call stopped the loop. */
  function Before<S, T>(f: (S, int, T) -> (S, bool), s: S, xs: seq<T>, j: nat): S
    requires j <= |xs|
  {
    Run(WorldStep(f), s, Indexed(xs)[..j])
  }

  /** Whether the call on element `j` leaves IsRun true. */
  predicate KeepsRunning<S, T>(f: (S, int, T) -> (S, bool), s: S, xs: seq<T>, j: nat)
    requires j < |xs|
  {
    f(Before(f, s, xs, j), j, xs[j]).1
  }

  lemma BeforeNext<S, T>(f: (S, int, T) -> (S, bool), s: S, xs: seq<T>, j: nat)
    requires j < |xs|
    ensures Before(f, s, xs, j + 1) == f(Before(f, s, xs, j), j, xs[j]).0
  {
    var p := Indexed(xs);
    assert p[..j + 1][..j] == p[..j];
  }

  lemma {:induction false} RunUntilStopFrom<S, T>(f: (S, int, T) -> (S, bool), s: S, xs: seq<T>, from: nat)
    requires from <= |xs|
    requires forall j :: 0 <= j < from ==> KeepsRunning(f, s, xs, j)
    ensures var (w, k) := RunUntilStop(f, Before(f, s, xs, from), xs, from);
      && from <= k <= |xs|
      && (from < |xs| ==> from < k)
      && w == Before(f, s, xs, k)
      && (forall j :: 0 <= j < k - 1 ==> KeepsRunning(f, s, xs, j))
      && (k < |xs| ==> !KeepsRunning(f, s, xs, k - 1))
    decreases |xs| - from
  {
    if from < |xs| {
      BeforeNext(f, s, xs, from);
      if KeepsRunning(f, s, xs, from) {
        RunUntilStopFrom(f, s, xs, from + 1);
      }
    }
  }

  /** What the breakable loop does: it calls the action on indices 0, 1, ...;
      every call but the last left IsRun true; if it stopped before the end, the
      last call left IsRun false; and the world is the one those calls produced. */
  lemma RunUntilStopMeaning<S, T>(f: (S, int, T) -> (S, bool), s: S, xs: seq<T>)
    ensures var (w, k) := RunUntilStop(f, s, xs, 0);
      && k <= |xs|
      && (xs != [] ==> k >= 1)
      && w == Run(WorldStep(f), s, Indexed(xs)[..k])
      && (forall j :: 0 <= j < k - 1 ==> KeepsRunning(f, s, xs, j))
      && (k < |xs| ==> !KeepsRunning(f, s, xs, k - 1))
  {
    assert Indexed(xs)[..0] == [];
    RunUntilStopFrom(f, s, xs, 0);
  }

  /** `ForEach(source, (i, x, state) => ...)`: stops right after the first call
      that leaves `state.IsRun` false; that element is processed, later ones are not. */
  method ForEachBreakable<S, T>(source: seq<T>, action: Option<(S, int, T) -> (S, bool)>, world: S)
    returns (r: Result<S, CollectionError>)
    ensures action.None? ==> r == Failure(ArgumentNull)
    ensures action.Some? ==> r == Success(RunUntilStop(action.value, world, source, 0).0)
  {
    if action.None? {
      return Failure(ArgumentNull);
    }
    var f := action.value;
    var w := world;
    var i := 0;
    while i < |source|
      invariant 0 <= i <= |source|
      invariant RunUntilStop(f, w, source, i) == RunUntilStop(f, world, source, 0)
    {
      var (w', isRun) := f(w, i, source[i]);
      w := w';
      if !isRun {
        return Success(w);
      }
      i := i + 1;
    }
    return Success(w);
  }

  // ---------------------------------------------------------------------------
  // Keyword collections

  /** One entry of a `KeywordCollection`. */
  datatype Keyword = Keyword(globalName: string, localName: string, displayName: string)

  /** The integer codes of `KeywordName` that name none of its members: 0, 1
      and 2 are `GlobalName`, `LocalName` and `DisplayName`. */
  type OtherCode = c: int | c < 0 || 2 < c witness 3

  /** The `KeywordName` enumeration; `Unnamed(code)` is an integer cast to the
      enumeration that is none of its three members. */
  datatype KeywordName = GlobalName | LocalName | DisplayName | Unnamed(code: OtherCode)

  /** The name field `which` selects. */
  function Selected(k: Keyword, which: KeywordName): string
    requires !which.Unnamed?
  {
    match which
    case GlobalName => k.globalName
    case LocalName => k.localName
    case DisplayName => k.displayName
  }

  /** One branch of `Contains`: scan until a keyword's selected field is `name`. */
  method ScanFor(collection: seq<Keyword>, name: string, which: KeywordName) returns (contains: bool)
    requires !which.Unnamed?
    ensures contains <==> exists i :: 0 <= i < |collection| && Selected(collection[i], which) == name
  {
    contains := false;
    var i := 0;
    while i < |collection|
      invariant 0 <= i <= |collection|
      invariant forall j :: 0 <= j < i ==> Selected(collection[j], which) != name
    {
      if Selected(collection[i], which) == name {
        contains := true;
        break;
      }
      i := i + 1;
    }
  }

  /** `Contains(collection, name, keywordName)`: true iff some keyword's
      selected field equals `name`; a value outside the enumeration gives false. */
  method Contains(collection: seq<Keyword>, name: string, keywordName: KeywordName := GlobalName)
    returns (contains: bool)
    ensures contains <==>
      !keywordName.Unnamed? && exists i :: 0 <= i < |collection| && Selected(collection[i], keywordName) == name
  {
    match keywordName
    case GlobalName => contains := ScanFor(collection, name, GlobalName);
    case LocalName => contains := ScanFor(collection, name, LocalName);
    case DisplayName => contains := ScanFor(collection, name, DisplayName);
    case Unnamed(_) => contains := false;
  }

  // ---------------------------------------------------------------------------
  // Filling a dictionary with Dictionary.Add

  /** No key occurs twice among `pairs`. */
  predicate DistinctKeys<K(==), V>(pairs: seq<(K, V)>)
  {
    forall i, j :: 0 <= i < j < |pairs| ==> pairs[i].0 != pairs[j].0
  }

  /** The keys of `pairs`. */
  function KeySet<K, V>(pairs: seq<(K, V)>): set<K>
  {
    set i | 0 <= i < |pairs| :: pairs[i].0
  }

  /** Successive `Dictionary.Add(key, value)` calls on a new dictionary. The
      first key already present throws; then nothing is returned. */
  method AddAll<K(==), V>(pairs: seq<(K, V)>) returns (r: Result<map<K, V>, CollectionError>)
    ensures r.Failure? <==> !DistinctKeys(pairs)
    ensures r.Failure? ==> r.error == DuplicateKey
    ensures r.Success? ==> r.value.Keys == KeySet(pairs)
    ensures r.Success? ==> forall i :: 0 <= i < |pairs| ==> r.value[pairs[i].0] == pairs[i].1
  {
    var m: map<K, V> := map[];
    for i := 0 to |pairs|
      invariant m.Keys == KeySet(pairs[..i])
      invariant forall j :: 0 <= j < i ==> pairs[j].0 in m && m[pairs[j].0] == pairs[j].1
      invariant DistinctKeys(pairs[..i])
    {
      var (k, v) := pairs[i];
      if k in m {
        var j :| 0 <= j < i && pairs[j].0 == k;
        assert pairs[j].0 == pairs[i].0;
        return Failure(DuplicateKey);
      }
      assert pairs[..i + 1] == pairs[..i] + [(k, v)];
      m := m[k := v];
    }
    assert pairs[..|pairs|] == pairs;
    return Success(m);
  }

  /** The (GlobalName, DisplayName) pairs of a keyword collection. */
  function GlobalToDisplay(collection: seq<Keyword>): (pairs: seq<(string, string)>)
    ensures |pairs| == |collection|
    ensures forall i :: 0 <= i < |collection| ==>
      pairs[i] == (collection[i].globalName, collection[i].displayName)
  {
    seq(|collection|, i requires 0 <= i < |collection| => (collection[i].globalName, collection[i].displayName))
  }

  /** `GetDict`: maps each GlobalName to its DisplayName, and throws on a
      repeated GlobalName although a keyword collection may hold one. */
  method GetDict(collection: seq<Keyword>) returns (r: Result<map<string, string>, CollectionError>)
    ensures r.Failure? <==>
      exists i, j :: 0 <= i < j < |collection| && collection[i].globalName == collection[j].globalName
    ensures r.Failure? ==> r.error == DuplicateKey
    ensures r.Success? ==> forall name :: name in r.value <==>
      exists i :: 0 <= i < |collection| && collection[i].globalName == name
    ensures r.Success? ==> forall i :: 0 <= i < |collection| ==>
      r.value[collection[i].globalName] == collection[i].displayName
  {
    var pairs := GlobalToDisplay(collection);
    r := AddAll(pairs);
    if r.Success? {
      forall name | name in r.value
        ensures exists i :: 0 <= i < |collection| && collection[i].globalName == name
      {
        var i :| 0 <= i < |pairs| && pairs[i].0 == name;
      }
    } else {
      var i, j :| 0 <= i < j < |pairs| && pairs[i].0 == pairs[j].0;
      assert collection[i].globalName == collection[j].globalName;
    }
  }

  // ---------------------------------------------------------------------------
  // Id mappings

  /** One entry of an `IdMapping`: an old id and the id it was mapped to. */
  datatype IdPair<Id> = IdPair(key: Id, value: Id)

  /** The keys of an id mapping, in mapping order. */
  function KeysOf<Id>(idmap: seq<IdPair<Id>>): (ids: seq<Id>)
    ensures |ids| == |idmap|
    ensures forall i :: 0 <= i < |idmap| ==> ids[i] == idmap[i].key
  {
    seq(|idmap|, i requires 0 <= i < |idmap| => idmap[i].key)
  }

  /** The values of an id mapping, in mapping order. */
  function ValuesOf<Id>(idmap: seq<IdPair<Id>>): (ids: seq<Id>)
    ensures |ids| == |idmap|
    ensures forall i :: 0 <= i < |idmap| ==> ids[i] == idmap[i].value
  {
    seq(|idmap|, i requires 0 <= i < |idmap| => idmap[i].value)
  }

  /** Keys and values, paired position by position, give back the mapping. */
  lemma KeysValuesRebuild<Id>(idmap: seq<IdPair<Id>>)
    ensures |KeysOf(idmap)| == |ValuesOf(idmap)| == |idmap|
    ensures forall i :: 0 <= i < |idmap| ==> IdPair(KeysOf(idmap)[i], ValuesOf(idmap)[i]) == idmap[i]
  {
  }

  /** `GetKeys`: the old ids, one per entry, in mapping order. */
  method GetKeys<Id>(idmap: seq<IdPair<Id>>) returns (ids: seq<Id>)
    ensures ids == KeysOf(idmap)
  {
    ids := [];
    for i := 0 to |idmap|
      invariant ids == KeysOf(idmap[..i])
    {
      ids := ids + [idmap[i].key];
    }
    assert idmap[..|idmap|] == idmap;
  }

  /** `GetValues`: the new ids, one per entry, in mapping order. */
  method GetValues<Id>(idmap: seq<IdPair<Id>>) returns (ids: seq<Id>)
    ensures ids == ValuesOf(idmap)
  {
    ids := [];
    for i := 0 to |idmap|
      invariant ids == ValuesOf(idmap[..i])
    {
      ids := ids + [idmap[i].value];
    }
    assert idmap[..|idmap|] == idmap;
  }

  /** The (key, value) pairs of an id mapping. */
  function Entries<Id>(idmap: seq<IdPair<Id>>): (pairs: seq<(Id, Id)>)
    ensures |pairs| == |idmap|
    ensures forall i :: 0 <= i < |idmap| ==> pairs[i] == (idmap[i].key, idmap[i].value)
  {
    seq(|idmap|, i requires 0 <= i < |idmap| => (idmap[i].key, idmap[i].value))
  }

  /** `ToDictionary`: maps each key to its value; throws on a repeated key. */
  method ToDictionary<Id(==)>(idmap: seq<IdPair<Id>>) returns (r: Result<map<Id, Id>, CollectionError>)
    ensures r.Failure? <==> exists i, j :: 0 <= i < j < |idmap| && idmap[i].key == idmap[j].key
    ensures r.Failure? ==> r.error == DuplicateKey
    ensures r.Success? ==> r.value.Keys == set i | 0 <= i < |idmap| :: idmap[i].key
    ensures r.Success? ==> forall i :: 0 <= i < |idmap| ==> r.value[idmap[i].key] == idmap[i].value
  {
    var pairs := Entries(idmap);
    r := AddAll(pairs);
    if r.Success? {
      assert KeySet(pairs) == set i | 0 <= i < |idmap| :: idmap[i].key by {
        forall k | k in KeySet(pairs) ensures k in set i | 0 <= i < |idmap| :: idmap[i].key {
          var i :| 0 <= i < |pairs| && pairs[i].0 == k;
        }
      }
    } else {
      var i, j :| 0 <= i < j < |pairs| && pairs[i].0 == pairs[j].0;
      assert idmap[i].key == idmap[j].key;
    }
  }

  /** `ToList` on an ObjectIdCollection: the same ids, in the same order. */
  function ToList<Id>(ids: seq<Id>): (list: seq<Id>)
    ensures |list| == |ids|
    ensures forall i :: 0 <= i < |ids| ==> list[i] == ids[i]
  {
    ids
  }
}
