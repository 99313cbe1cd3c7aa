/**
 * Back-end selection (`backend` in mph/discovery.py). The discovered list is
 * a parameter instead of the cached result of `search_system`.
 */
module Selection {
  import opened Wrappers
  import opened CodeText
  import opened Version
  import opened Discovery

  /** The exceptions `backend` raises. */
  datatype SelectError =
    | NoInstallation  // RuntimeError: no back-end was discovered
    | NoSuchVersion   // LookupError: no back-end has the requested name
    | Incomparable    // TypeError inside `max`: a missing patch compared with another patch

  /** The tuple `(major, minor, patch, build)` that `max` compares. */
  datatype Key = Key(major: nat, minor: nat, patch: Option<nat>, build: nat)

  function KeyOf(b: Backend): Key {
    Key(b.version.major, b.version.minor, b.version.patch, b.version.build)
  }

  /**
   * Python's `a > b` on two such tuples: the first position where they differ
   * decides; `None` equals `None` but has no order against a number, which
   * is a TypeError (none here).
   */
  function Greater(a: Key, b: Key): Option<bool> {
    if a.major != b.major then Some(a.major > b.major)
    else if a.minor != b.minor then Some(a.minor > b.minor)
    else if a.patch != b.patch then
      if a.patch.Some? && b.patch.Some? then Some(a.patch.value > b.patch.value) else None
    else if a.build != b.build then Some(a.build > b.build)
    else Some(false)
  }

  /** `max`: the running maximum, replaced by each later item greater than it. */
  function MaxFold(best: Key, rest: seq<Key>): (r: Option<Key>)
    ensures r.Some? ==> r.value == best || r.value in rest
    decreases |rest|
  {
    if |rest| == 0 then Some(best)
    else match Greater(rest[0], best)
      case None => None
      case Some(true) => MaxFold(rest[0], rest[1..])
      case Some(false) => MaxFold(best, rest[1..])
  }

  /** `backend(version)`; `version` is `None` when the caller asks for the latest installation. */
  function Select(backends: seq<Backend>, version: Option<Text>): (r: Result<Backend, SelectError>)
    ensures r == Err(NoInstallation) <==> |backends| == 0
    ensures r.Ok? ==> r.value in backends
    ensures r == Err(Incomparable) ==> version.None?
    ensures r == Err(NoSuchVersion) ==> version.Some?
  {
    if |backends| == 0 then Err(NoInstallation)
    else match version
      case None =>
        var numbers := Keys(backends);
        assert numbers == [numbers[0]] + numbers[1..];
        (match MaxFold(numbers[0], numbers[1..])
         case None => Err(Incomparable)
         case Some(m) => Ok(backends[IndexOf(numbers, m)]))
      case Some(v) =>
        var names := Names(backends);
        if v !in names then Err(NoSuchVersion) else Ok(backends[IndexOf(names, v)])
  }

  function Keys(backends: seq<Backend>): (keys: seq<Key>)
    ensures |keys| == |backends| && forall i :: 0 <= i < |backends| ==> keys[i] == KeyOf(backends[i])
  {
    seq(|backends|, i requires 0 <= i < |backends| => KeyOf(backends[i]))
  }

  function Names(backends: seq<Backend>): (names: seq<Text>)
    ensures |names| == |backends| && forall i :: 0 <= i < |backends| ==> names[i] == backends[i].version.name
  {
    seq(|backends|, i requires 0 <= i < |backends| => backends[i].version.name)
  }

  // The order `max` follows when every patch is a number

  predicate Numeric(k: Key) {
    k.patch.Some?
  }

  function Tuple(k: Key): seq<nat>
    requires Numeric(k)
  {
    [k.major, k.minor, k.patch.value, k.build]
  }

  /** Lexicographic order on sequences of naturals of one length. */
  predicate LexLess(x: seq<nat>, y: seq<nat>)
    requires |x| == |y|
    decreases |x|
  {
    |x| > 0 && (x[0] < y[0] || (x[0] == y[0] && LexLess(x[1..], y[1..])))
  }

  lemma {:induction false} LexLessIrreflexive(x: seq<nat>)
    ensures !LexLess(x, x)
    decreases |x|
  {
    if |x| > 0 {
      LexLessIrreflexive(x[1..]);
    }
  }

  lemma {:induction false} LexLessTransitive(x: seq<nat>, y: seq<nat>, z: seq<nat>)
    requires |x| == |y| == |z|
    requires LexLess(x, y) && LexLess(y, z)
    ensures LexLess(x, z)
    decreases |x|
  {
    if x[0] == y[0] == z[0] {
      LexLessTransitive(x[1..], y[1..], z[1..]);
    }
  }

  lemma {:induction false} LexLessTotal(x: seq<nat>, y: seq<nat>)
    requires |x| == |y|
    ensures x == y || LexLess(x, y) || LexLess(y, x)
    decreases |x|
  {
    if |x| > 0 && x[0] == y[0] {
      LexLessTotal(x[1..], y[1..]);
      if x[1..] == y[1..] {
        assert x == [x[0]] + x[1..] && y == [y[0]] + y[1..];
      }
    }
  }

  /** On numeric tuples Python's `>` is the lexicographic order, and never raises. */
  lemma GreaterIsLexicographic(a: Key, b: Key)
    requires Numeric(a) && Numeric(b)
    ensures Greater(a, b) == Some(LexLess(Tuple(b), Tuple(a)))
  {
    var x, y := Tuple(b), Tuple(a);
    var x1, y1 := [b.minor, b.patch.value, b.build], [a.minor, a.patch.value, a.build];
    var x2, y2 := [b.patch.value, b.build], [a.patch.value, a.build];
    var x3, y3 := [b.build], [a.build];
    assert x[1..] == x1 && y[1..] == y1;
    assert x1[1..] == x2 && y1[1..] == y2;
    assert x2[1..] == x3 && y2[1..] == y3;
    assert x3[1..] == [] && y3[1..] == [];
    assert LexLess(x3, y3) == (b.build < a.build);
    assert LexLess(x2, y2) == (b.patch.value < a.patch.value || (b.patch == a.patch && LexLess(x3, y3)));
    assert LexLess(x1, y1) == (b.minor < a.minor || (b.minor == a.minor && LexLess(x2, y2)));
    assert LexLess(x, y) == (b.major < a.major || (b.major == a.major && LexLess(x1, y1)));
  }

  /** With numeric patches, `max` returns a tuple no other tuple exceeds. */
  lemma {:induction false} MaxFoldIsMaximum(best: Key, rest: seq<Key>)
    requires Numeric(best) && forall k :: 0 <= k < |rest| ==> Numeric(rest[k])
    ensures MaxFold(best, rest).Some?
    ensures var m := MaxFold(best, rest).value;
      && Numeric(m)
      && !LexLess(Tuple(m), Tuple(best))
      && forall k :: 0 <= k < |rest| ==> !LexLess(Tuple(m), Tuple(rest[k]))
    decreases |rest|
  {
    if |rest| == 0 {
      LexLessIrreflexive(Tuple(best));
    } else {
      var head := rest[0];
      GreaterIsLexicographic(head, best);
      if LexLess(Tuple(best), Tuple(head)) {
        MaxFoldIsMaximum(head, rest[1..]);
        var m := MaxFold(head, rest[1..]).value;
        if LexLess(Tuple(m), Tuple(best)) {
          LexLessTransitive(Tuple(m), Tuple(best), Tuple(head));
        }
        assert forall k :: 1 <= k < |rest| ==> rest[k] == rest[1..][k - 1];
      } else {
        MaxFoldIsMaximum(best, rest[1..]);
        var m := MaxFold(best, rest[1..]).value;
        LexLessTotal(Tuple(best), Tuple(head));
        if LexLess(Tuple(m), Tuple(head)) && LexLess(Tuple(head), Tuple(best)) {
          LexLessTransitive(Tuple(m), Tuple(head), Tuple(best));
        }
        assert Tuple(best) == Tuple(head) ==> best == head;
        assert forall k :: 1 <= k < |rest| ==> rest[k] == rest[1..][k - 1];
      }
    }
  }

  // What selection promises

  predicate AllNumeric(backends: seq<Backend>) {
    forall i :: 0 <= i < |backends| ==> Numeric(KeyOf(backends[i]))
  }

  /** Position `i` holds the first back-end with the greatest `(major, minor, patch, build)`. */
  ghost predicate IsFirstLatest(backends: seq<Backend>, i: int)
    requires AllNumeric(backends)
  {
    && 0 <= i < |backends|
    && (forall j :: 0 <= j < |backends| ==> !LexLess(Tuple(KeyOf(backends[i])), Tuple(KeyOf(backends[j]))))
    && (forall j :: 0 <= j < i ==> LexLess(Tuple(KeyOf(backends[j])), Tuple(KeyOf(backends[i]))))
  }

  /** Without a version, selection returns the first back-end whose tuple is greatest. */
  lemma SelectLatest(backends: seq<Backend>)
    requires |backends| > 0 && AllNumeric(backends)
    ensures exists i :: IsFirstLatest(backends, i) && Select(backends, None) == Ok(backends[i])
  {
    var numbers := Keys(backends);
    assert numbers == [numbers[0]] + numbers[1..];
    MaxFoldIsMaximum(numbers[0], numbers[1..]);
    var m := MaxFold(numbers[0], numbers[1..]).value;
    var i := IndexOf(numbers, m);
    forall j | 0 <= j < |backends|
      ensures !LexLess(Tuple(m), Tuple(numbers[j]))
    {
      if j > 0 { assert numbers[j] == numbers[1..][j - 1]; }
    }
    forall j | 0 <= j < i
      ensures LexLess(Tuple(numbers[j]), Tuple(m))
    {
      LexLessTotal(Tuple(numbers[j]), Tuple(m));
    }
    assert IsFirstLatest(backends, i);
  }

  /** The one back-end of a one-element list is selected, even when its patch is missing. */
  lemma SelectSingle(backends: seq<Backend>)
    requires |backends| == 1
    ensures Select(backends, None) == Ok(backends[0])
  {
    assert Keys(backends)[1..] == [];
  }

  /** `IsFirstNamed(backends, v, i)`: position `i` holds the first back-end named `v`. */
  ghost predicate IsFirstNamed(backends: seq<Backend>, v: Text, i: int) {
    && 0 <= i < |backends|
    && backends[i].version.name == v
    && forall j :: 0 <= j < i ==> backends[j].version.name != v
  }

  /** With a version, selection returns the first back-end of that name, and fails exactly when there is none. */
  lemma SelectByName(backends: seq<Backend>, v: Text)
    requires |backends| > 0
    ensures Select(backends, Some(v)) == Err(NoSuchVersion)
        <==> forall j :: 0 <= j < |backends| ==> backends[j].version.name != v
    ensures Select(backends, Some(v)).Ok? ==>
        exists i :: IsFirstNamed(backends, v, i) && Select(backends, Some(v)).value == backends[i]
  {
    var names := Names(backends);
    if v in names {
      var i := IndexOf(names, v);
      assert IsFirstNamed(backends, v, i);
    } else {
      forall j | 0 <= j < |backends| ensures backends[j].version.name != v {
        assert names[j] == backends[j].version.name;
      }
    }
  }

  predicate AllWellNamed(backends: seq<Backend>) {
    forall i :: 0 <= i < |backends| ==> WellNamed(backends[i].version)
  }

  /**
   * Among well-named records, asking for the name of (major, minor, patch)
   * selects the first back-end with exactly those numbers.
   */
  lemma SelectByNumbers(backends: seq<Backend>, major: nat, minor: nat, patch: nat)
    requires |backends| > 0 && AllWellNamed(backends) && patch <= MaxPatch
    ensures var r := Select(backends, Some(Name(major, minor, patch)));
      && (r.Ok? <==> exists j :: 0 <= j < |backends| && Has(backends[j], major, minor, patch))
      && (r.Ok? ==> exists i :: 0 <= i < |backends| && r.value == backends[i] && Has(backends[i], major, minor, patch)
                     && forall j :: 0 <= j < i ==> !Has(backends[j], major, minor, patch))
  {
    var v := Name(major, minor, patch);
    SelectByName(backends, v);
    forall j | 0 <= j < |backends|
      ensures backends[j].version.name == v <==> Has(backends[j], major, minor, patch)
    {
      var w := backends[j].version;
      if w.name == v {
        NameInjective(w.major, w.minor, NamingPatch(w), major, minor, patch);
      }
    }
  }

  /** The back-end carries the version numbers `major.minor` and `patch` (a missing patch counting as zero). */
  predicate Has(b: Backend, major: nat, minor: nat, patch: nat) {
    b.version.major == major && b.version.minor == minor && NamingPatch(b.version) == patch
  }

  /**
   * Discovery followed by selection: without a version, the discovered
   * back-end; with one, that back-end exactly when the name is its record's.
   */
  lemma SelectDiscovered(output: Text, version: Text)
    requires IsAscii(output)
    ensures Select(SearchChalmersLinux(output), None) == Ok(SearchChalmersLinux(output)[0])
    ensures Select(SearchChalmersLinux(output), Some(version)).Ok? <==> version == VersionOf(output).name
    ensures Select(SearchChalmersLinux(output), Some(version)).Ok? ==>
      Select(SearchChalmersLinux(output), Some(version)).value == SearchChalmersLinux(output)[0]
  {
    SelectSingle(SearchChalmersLinux(output));
    SelectByName(SearchChalmersLinux(output), version);
  }
}
