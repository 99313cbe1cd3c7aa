/**
 * The version parser of mph/discovery.py: `parse` turns the text the Comsol
 * executable prints for `--version` into `(name, major, minor, patch, build)`.
 *
 * The parser applies `re.match` with the pattern `(?i)Comsol.*?(\d+(?:\.\d+)*)`:
 * anchored at the start of the text, a case-insensitive product token, the
 * fewest possible characters other than a newline, then the captured dotted
 * number. The matcher here is a small scanner, and the lemmas below show that
 * it captures exactly the span the pattern's lazy-then-greedy rules select.
 */
module Version {
  import opened Wrappers
  import opened CodeText

  /** A version record; `patch` is absent only in the fallback record of discovery. */
  datatype VersionInfo = VersionInfo(name: Text, major: nat, minor: nat, patch: Option<nat>, build: nat)

  /** The causes of the `ValueError` that `parse` raises. */
  datatype ParseError =
    | InvalidFormat     // the pattern does not match the text
    | TooManyParts      // the captured number has more than four components
    | NotAllNumbers     // some component is not accepted by `int`
    | SuffixOutOfRange  // `chr` refuses the code point of the patch letter

  /** The product token the pattern begins with, in lower case. */
  const Product: Text := FromString("comsol")

  /** The largest patch whose letter `chr(ord('a') + patch - 1)` is still a code point. */
  const MaxPatch: nat := 0x10_FFFF - (LowerA - 1)

  // The pattern

  predicate HasProductPrefix(s: Text) {
    |s| >= |Product| && forall i :: 0 <= i < |Product| ==> AsciiLower(s[i]) == Product[i]
  }

  predicate NoNewline(t: Text) {
    forall i :: 0 <= i < |t| ==> t[i] != Newline
  }

  /** `t` is a word of `\d+(?:\.\d+)*`: digits and dots, digits at both ends, never two dots in a row. */
  predicate IsDottedNumber(t: Text) {
    && |t| > 0 && IsDigit(t[0]) && IsDigit(t[|t| - 1])
    && (forall i :: 0 <= i < |t| ==> IsDigit(t[i]) || t[i] == Dot)
    && (forall i :: 0 <= i < |t| - 1 ==> IsDigit(t[i]) || IsDigit(t[i + 1]))
  }

  /** The pattern matches at the start of `s` with its group capturing `s[p..q]`. */
  predicate Candidate(s: Text, p: nat, q: nat) {
    && HasProductPrefix(s)
    && |Product| <= p <= q <= |s|
    && NoNewline(s[|Product|..p])
    && IsDottedNumber(s[p..q])
  }

  /**
   * `s[p..q]` is the group that `re.match` reports: the lazy `.*?` makes the
   * capture start at the leftmost possible position, and the greedy group then
   * takes the longest number from there.
   */
  ghost predicate Captures(s: Text, p: nat, q: nat) {
    && Candidate(s, p, q)
    && forall p': nat, q': nat :: Candidate(s, p', q') ==> p < p' || (p == p' && q' <= q)
  }

  /** Some digit follows the product token on its line: the pattern matches somewhere. */
  ghost predicate HasVersionNumber(s: Text) {
    && HasProductPrefix(s)
    && exists p :: |Product| <= p < |s| && IsDigit(s[p]) && NoNewline(s[|Product|..p])
  }

  // The scanner

  /** The first digit at or after `i`; none when a newline or the end of `s` comes first. */
  function FirstDigit(s: Text, i: nat): (r: Option<nat>)
    requires i <= |s|
    ensures r.Some? ==> i <= r.value < |s| && IsDigit(s[r.value]) && NoNewline(s[i..r.value])
    ensures r.Some? ==> forall k :: i <= k < r.value ==> !IsDigit(s[k])
    ensures r.None? ==> forall k :: i <= k < |s| && IsDigit(s[k]) ==> !NoNewline(s[i..k])
    decreases |s| - i
  {
    if i == |s| then None
    else if IsDigit(s[i]) then Some(i)
    else if s[i] == Newline then
      assert forall k :: i < k <= |s| ==> s[i..k][0] == Newline;
      None
    else
      var r := FirstDigit(s, i + 1);
      assert forall k :: i < k <= |s| ==> s[i..k] == [s[i]] + s[i + 1..k];
      r
  }

  /** The end of the run of digits that starts at `i`. */
  function DigitsEnd(s: Text, i: nat): (j: nat)
    requires i <= |s|
    ensures i <= j <= |s| && AllDigits(s[i..j])
    ensures j < |s| ==> !IsDigit(s[j])
    decreases |s| - i
  {
    if i < |s| && IsDigit(s[i]) then
      var j := DigitsEnd(s, i + 1);
      assert s[i..j] == [s[i]] + s[i + 1..j];
      j
    else i
  }

  /** The end of the number that starts with the digit at `i`, each repetition taken greedily. */
  function NumberEnd(s: Text, i: nat): (j: nat)
    requires i < |s| && IsDigit(s[i])
    ensures i < j <= |s| && IsDottedNumber(s[i..j])
    ensures j < |s| ==> !IsDigit(s[j])
    decreases |s| - i
  {
    var k := DigitsEnd(s, i);
    if k + 1 < |s| && s[k] == Dot && IsDigit(s[k + 1]) then
      var j := NumberEnd(s, k + 1);
      DottedExtend(s, i, k, j);
      j
    else
      assert s[i..k][0] == s[i];
      k
  }

  /** A run of digits, a dot and a number form a number. */
  lemma DottedExtend(s: Text, i: nat, k: nat, j: nat)
    requires i < k < j <= |s|
    requires AllDigits(s[i..k]) && s[k] == Dot && IsDottedNumber(s[k + 1..j])
    ensures IsDottedNumber(s[i..j])
  {
    var t, head, tail := s[i..j], s[i..k], s[k + 1..j];
    var d := k - i;
    forall m | 0 <= m < |t|
      ensures IsDigit(t[m]) || t[m] == Dot
    {
      if m < d { assert t[m] == head[m]; }
      else if m > d { assert t[m] == tail[m - d - 1]; }
    }
    forall m | 0 <= m < |t| - 1
      ensures IsDigit(t[m]) || IsDigit(t[m + 1])
    {
      if m < d { assert t[m] == head[m]; }
      else if m == d { assert t[m + 1] == tail[0]; }
      else { assert t[m] == tail[m - d - 1] && t[m + 1] == tail[m - d]; }
    }
    assert t[0] == head[0];
    assert t[|t| - 1] == tail[|tail| - 1];
  }

  /** A number read from one of its digits onwards is still a number. */
  lemma DottedSuffix(t: Text, m: nat)
    requires IsDottedNumber(t) && m < |t| && IsDigit(t[m])
    ensures IsDottedNumber(t[m..])
  {
    var u := t[m..];
    assert forall x :: 0 <= x < |u| ==> u[x] == t[x + m];
  }

  /** No number that starts at `i` ends after the one the scanner reads. */
  lemma {:induction false} NumberEndIsLongest(s: Text, i: nat, q: nat)
    requires i < |s| && IsDigit(s[i]) && i <= q <= |s| && IsDottedNumber(s[i..q])
    ensures q <= NumberEnd(s, i)
    decreases |s| - i
  {
    var k := DigitsEnd(s, i);
    if q > k {
      var t := s[i..q];
      assert t[k - i] == s[k];
      assert k - i != |t| - 1;
      assert t[k - i + 1] == s[k + 1];
      DottedSuffix(t, k + 1 - i);
      assert t[k + 1 - i..] == s[k + 1..q];
      NumberEndIsLongest(s, k + 1, q);
    }
  }

  /** The span the scanner captures: the pattern's group under `re.match`, or none when it fails. */
  function MatchSpan(s: Text): (r: Option<(nat, nat)>)
    ensures r.Some? ==> Candidate(s, r.value.0, r.value.1)
  {
    if !HasProductPrefix(s) then None
    else match FirstDigit(s, |Product|)
      case None => None
      case Some(p) => Some((p, NumberEnd(s, p)))
  }

  /** Every span the pattern could capture loses to the scanner's: it starts later, or is no longer. */
  lemma MatchSpanIsPreferred(s: Text, p': nat, q': nat)
    requires Candidate(s, p', q')
    ensures MatchSpan(s).Some?
    ensures MatchSpan(s).value.0 < p' || (MatchSpan(s).value.0 == p' && q' <= MatchSpan(s).value.1)
  {
    assert s[p'..q'][0] == s[p'];
    var first := FirstDigit(s, |Product|);
    if first == Some(p') {
      NumberEndIsLongest(s, p', q');
    }
  }

  /** The scanner captures exactly the span `re.match` selects. */
  lemma MatchSpanCaptures(s: Text, p: nat, q: nat)
    ensures MatchSpan(s) == Some((p, q)) <==> Captures(s, p, q)
  {
    if MatchSpan(s) == Some((p, q)) {
      forall p': nat, q': nat | Candidate(s, p', q')
        ensures p < p' || (p == p' && q' <= q)
      {
        MatchSpanIsPreferred(s, p', q');
      }
    }
    if Captures(s, p, q) {
      MatchSpanIsPreferred(s, p, q);
      var (p0, q0) := MatchSpan(s).value;
      assert p <= p0 && (p == p0 ==> q0 <= q);
    }
  }

  // Splitting and converting the captured number

  function JoinDots(parts: seq<Text>): Text
    requires |parts| >= 1
    decreases |parts|
  {
    if |parts| == 1 then parts[0] else parts[0] + [Dot] + JoinDots(parts[1..])
  }

  /** Python's `str.split('.')`: the dot-free pieces that, joined with dots, give back `t`. */
  function Split(t: Text): (parts: seq<Text>)
    ensures |parts| >= 1
    ensures forall k :: 0 <= k < |parts| ==> Dot !in parts[k]
    ensures JoinDots(parts) == t
    decreases |t|
  {
    if Dot !in t then [t]
    else
      var i := IndexOf(t, Dot);
      var rest := Split(t[i + 1..]);
      assert t == t[..i] + [Dot] + t[i + 1..];
      assert ([t[..i]] + rest)[1..] == rest;
      [t[..i]] + rest
  }

  /** Splitting undoes joining: dot-free pieces come back unchanged. */
  lemma {:induction false} SplitJoinDots(parts: seq<Text>)
    requires |parts| >= 1
    requires forall k :: 0 <= k < |parts| ==> Dot !in parts[k]
    ensures Split(JoinDots(parts)) == parts
    decreases |parts|
  {
    if |parts| > 1 {
      var head, rest := parts[0], JoinDots(parts[1..]);
      var t := JoinDots(parts);
      assert t == head + [Dot] + rest;
      assert t[|head|] == Dot;
      var i := IndexOf(t, Dot);
      assert i == |head|;
      assert t[..i] == head && t[i + 1..] == rest;
      SplitJoinDots(parts[1..]);
    }
  }

  /** Every piece of a number is a non-empty run of digits. */
  lemma {:induction false} SplitDottedNumber(t: Text)
    requires IsDottedNumber(t)
    ensures forall k :: 0 <= k < |Split(t)| ==> |Split(t)[k]| > 0 && AllDigits(Split(t)[k])
    decreases |t|
  {
    if Dot in t {
      var i := IndexOf(t, Dot);
      assert i > 0 && i < |t| - 1;
      assert IsDigit(t[i + 1]);
      DottedSuffix(t, i + 1);
      SplitDottedNumber(t[i + 1..]);
      var parts := Split(t);
      assert parts[0] == t[..i] && parts[1..] == Split(t[i + 1..]);
      assert AllDigits(t[..i]) by {
        forall j | 0 <= j < i ensures IsDigit(t[..i][j]) {
          assert t[j] != Dot;
        }
      }
      forall k | 1 <= k < |parts| ensures |parts[k]| > 0 && AllDigits(parts[k]) {
        assert parts[k] == Split(t[i + 1..])[k - 1];
      }
    }
  }

  /** `[int(part) for part in parts]`: fails when some part is not a non-empty run of digits. */
  function ToNats(parts: seq<Text>): (r: Option<seq<nat>>)
    ensures r.Some? <==> forall k :: 0 <= k < |parts| ==> |parts[k]| > 0 && AllDigits(parts[k])
    ensures r.Some? ==> |r.value| == |parts|
    ensures r.Some? ==> forall k :: 0 <= k < |parts| ==> r.value[k] == Value(parts[k])
  {
    if forall k :: 0 <= k < |parts| ==> |parts[k]| > 0 && AllDigits(parts[k]) then
      Some(seq(|parts|, k requires 0 <= k < |parts| => Value(parts[k])))
    else None
  }

  /** `parts + [0] * (4 - len(parts))`: exactly four components, the given ones in order, then zeros. */
  function Pad(ns: seq<nat>): (r: seq<nat>)
    requires |ns| <= 4
    ensures |r| == 4
    ensures forall k :: 0 <= k < 4 ==> r[k] == Component(ns, k)
  {
    ns + seq(4 - |ns|, _ => 0)
  }

  /** The `k`-th component of a version number, zero when the number has fewer. */
  function Component(ns: seq<nat>, k: nat): nat {
    if k < |ns| then ns[k] else 0
  }

  // The short-hand name

  /** `chr(ord('a') + patch - 1)` when `patch > 0`, and nothing otherwise. */
  function PatchLetter(patch: nat): (r: Text)
    requires patch <= MaxPatch
    ensures |r| <= 1 && (|r| == 0 <==> patch == 0)
    ensures forall i :: 0 <= i < |r| ==> LowerA <= r[i] && !IsDigit(r[i]) && r[i] != Dot
  {
    if patch > 0 then [LowerA + patch - 1] else []
  }

  /** `f'{major}.{minor}'`, followed by the patch letter. */
  function Name(major: nat, minor: nat, patch: nat): Text
    requires patch <= MaxPatch
  {
    Decimal(major) + [Dot] + Decimal(minor) + PatchLetter(patch)
  }

  /** A run of digits is determined by where the first non-digit sits. */
  lemma DigitsPrefixUnique(x: Text, y: Text, x': Text, y': Text)
    requires AllDigits(x) && AllDigits(x')
    requires |y| > 0 ==> !IsDigit(y[0])
    requires |y'| > 0 ==> !IsDigit(y'[0])
    requires x + y == x' + y'
    ensures x == x' && y == y'
  {
    if |x| < |x'| {
    } else if |x'| < |x| {
    }
    assert x == (x + y)[..|x|];
    assert x' == (x' + y')[..|x'|];
  }

  /** Distinct versions have distinct names, so a name identifies major, minor and patch. */
  lemma NameInjective(major: nat, minor: nat, patch: nat, major': nat, minor': nat, patch': nat)
    requires patch <= MaxPatch && patch' <= MaxPatch
    requires Name(major, minor, patch) == Name(major', minor', patch')
    ensures major == major' && minor == minor' && patch == patch'
  {
    var a, b, l := Decimal(major), Decimal(minor), PatchLetter(patch);
    var a', b', l' := Decimal(major'), Decimal(minor'), PatchLetter(patch');
    var rest, rest' := [Dot] + b + l, [Dot] + b' + l';
    assert Name(major, minor, patch) == a + rest;
    assert Name(major', minor', patch') == a' + rest';
    DigitsPrefixUnique(a, rest, a', rest');
    assert b + l == rest[1..] && b' + l' == rest'[1..];
    DigitsPrefixUnique(b, l, b', l');
    if patch > 0 && patch' > 0 {
      assert l[0] == l'[0];
    }
  }

  /** The patch that names a record: a missing patch names like patch zero. */
  function NamingPatch(v: VersionInfo): nat {
    match v.patch
    case Some(p) => p
    case None => 0
  }

  /** The record's name is the short-hand of its own major, minor and patch. */
  predicate WellNamed(v: VersionInfo) {
    NamingPatch(v) <= MaxPatch && v.name == Name(v.major, v.minor, NamingPatch(v))
  }

  // The parser

  /**
   * The second half of `parse`: the captured number split at its dots, each
   * part read as an integer, padded to four components and named.
   */
  function Convert(number: Text): (r: Result<VersionInfo, ParseError>)
    ensures r.Ok? ==> r.value.patch.Some? && WellNamed(r.value)
  {
    var parts := Split(number);
    if |parts| > 4 then Err(TooManyParts)
    else match ToNats(parts)
      case None => Err(NotAllNumbers)
      case Some(numbers) =>
        var padded := Pad(numbers);
        var major, minor, patch, build := padded[0], padded[1], padded[2], padded[3];
        if patch > MaxPatch then Err(SuffixOutOfRange)
        else Ok(VersionInfo(Name(major, minor, patch), major, minor, Some(patch), build))
  }

  /**
   * `parse(version)`: the version record, or why `parse` raises `ValueError`.
   * The text is ASCII, as the caller decodes the tool's output as ASCII.
   */
  function Parse(version: Text): (r: Result<VersionInfo, ParseError>)
    requires IsAscii(version)
    ensures r.Ok? ==> r.value.patch.Some? && WellNamed(r.value)
  {
    match MatchSpan(version)
    case None => Err(InvalidFormat)
    case Some((p, q)) => Convert(version[p..q])
  }

  // What the parser promises

  /** `parse` reports an invalid format exactly when no digit follows the product token on its line. */
  lemma ParseInvalidFormat(s: Text)
    requires IsAscii(s)
    ensures Parse(s) == Err(InvalidFormat) <==> !HasVersionNumber(s)
  {
    if HasVersionNumber(s) {
      var p :| |Product| <= p < |s| && IsDigit(s[p]) && NoNewline(s[|Product|..p]);
      assert s[p..p + 1] == [s[p]];
      MatchSpanIsPreferred(s, p, p + 1);
    }
    if MatchSpan(s).Some? {
      var (p, q) := MatchSpan(s).value;
      assert s[p..q][0] == s[p];
    }
  }

  /** The captured number consists of digit runs, so the `int` conversion never fails. */
  lemma ParseNeverNotAllNumbers(s: Text)
    requires IsAscii(s)
    ensures Parse(s) != Err(NotAllNumbers)
  {
    if MatchSpan(s).Some? {
      var (p, q) := MatchSpan(s).value;
      SplitDottedNumber(s[p..q]);
    }
  }

  /** The text after a captured number could have extended it: a digit, or a dot and a digit. */
  predicate ContinuesNumber(tail: Text) {
    |tail| > 0 && (IsDigit(tail[0]) || (tail[0] == Dot && |tail| > 1 && IsDigit(tail[1])))
  }

  /** Joining non-empty digit runs with dots gives a number. */
  lemma {:induction false} JoinDotsIsNumber(digits: seq<Text>)
    requires |digits| >= 1
    requires forall k :: 0 <= k < |digits| ==> |digits[k]| > 0 && AllDigits(digits[k])
    ensures IsDottedNumber(JoinDots(digits))
    decreases |digits|
  {
    if |digits| > 1 {
      JoinDotsIsNumber(digits[1..]);
      var head, rest := digits[0], JoinDots(digits[1..]);
      var s := head + [Dot] + rest;
      assert s[..|head|] == head && s[|head| + 1..|s|] == rest;
      DottedExtend(s, 0, |head|, |s|);
      assert s[0..|s|] == s;
    }
  }

  /** Digit runs contain no dot. */
  lemma DigitsHaveNoDot(digits: seq<Text>)
    requires forall k :: 0 <= k < |digits| ==> AllDigits(digits[k])
    ensures forall k :: 0 <= k < |digits| ==> Dot !in digits[k]
  {
    forall k | 0 <= k < |digits| ensures Dot !in digits[k] {
      assert !IsDigit(Dot);
    }
  }

  /**
   * The group captured from product token, filler, number and tail is the
   * number: the filler holds no digit, and the tail cannot extend the number.
   */
  lemma CapturedNumber(prefix: Text, filler: Text, number: Text, tail: Text)
    requires |prefix| == |Product| && HasProductPrefix(prefix)
    requires NoNewline(filler) && forall k :: 0 <= k < |filler| ==> !IsDigit(filler[k])
    requires IsDottedNumber(number)
    requires !ContinuesNumber(tail)
    ensures var s, p := prefix + filler + number + tail, |prefix| + |filler|;
      MatchSpan(s) == Some((p, p + |number|))
  {
    var s := prefix + filler + number + tail;
    var p0 := |prefix| + |filler|;
    var q0 := p0 + |number|;
    assert s[..|prefix|] == prefix;
    assert s[|Product|..p0] == filler;
    assert s[p0..q0] == number;
    assert Candidate(s, p0, q0);
    forall k | |Product| <= k < p0 ensures !IsDigit(s[k]) {
      assert s[k] == filler[k - |Product|];
    }
    assert |tail| > 0 ==> s[q0] == tail[0];
    assert |tail| > 1 ==> s[q0 + 1] == tail[1];
    MatchSpanIsPreferred(s, p0, q0);
    var (p, q) := MatchSpan(s).value;
    assert s[p..q][0] == s[p];
    assert p == p0;
    DottedInterior(s, p, q, q0);
  }

  /** Inside a number, each character is a digit, or a dot followed by a digit. */
  lemma DottedInterior(s: Text, p: nat, q: nat, m: nat)
    requires p <= q <= |s| && IsDottedNumber(s[p..q])
    ensures p < m < q ==> IsDigit(s[m]) || (s[m] == Dot && m + 1 < q && IsDigit(s[m + 1]))
  {
    if p < m < q {
      assert s[p..q][m - p] == s[m];
      if m + 1 < q {
        assert s[p..q][m - p + 1] == s[m + 1];
      }
    }
  }

  /**
   * The round trip: a text made of the product token in any case, filler
   * without digits or newlines, dot-joined digit runs and a tail that cannot
   * extend them parses to those runs' values, padded to four with zeros.
   */
  lemma ParseDecomposed(prefix: Text, filler: Text, digits: seq<Text>, tail: Text, ns: seq<nat>)
    requires |prefix| == |Product| && HasProductPrefix(prefix)
    requires NoNewline(filler) && forall k :: 0 <= k < |filler| ==> !IsDigit(filler[k])
    requires |digits| >= 1 && forall k :: 0 <= k < |digits| ==> |digits[k]| > 0 && AllDigits(digits[k])
    requires !ContinuesNumber(tail)
    requires IsAscii(prefix + filler + JoinDots(digits) + tail)
    requires |ns| == |digits| && forall k :: 0 <= k < |digits| ==> ns[k] == Value(digits[k])
    ensures var s := prefix + filler + JoinDots(digits) + tail;
      && (|ns| > 4 ==> Parse(s) == Err(TooManyParts))
      && (|ns| <= 4 && Component(ns, 2) > MaxPatch ==> Parse(s) == Err(SuffixOutOfRange))
      && (|ns| <= 4 && Component(ns, 2) <= MaxPatch ==>
            Parse(s) == Ok(VersionInfo(Name(Component(ns, 0), Component(ns, 1), Component(ns, 2)),
                                       Component(ns, 0), Component(ns, 1), Some(Component(ns, 2)),
                                       Component(ns, 3))))
  {
    var number := JoinDots(digits);
    var s := prefix + filler + number + tail;
    var p := |prefix| + |filler|;
    JoinDotsIsNumber(digits);
    CapturedNumber(prefix, filler, number, tail);
    assert s[p..p + |number|] == number;
    ConvertDigits(digits, ns);
  }

  /** Dot-joined digit runs convert to their values, padded to four, or fail as `parse` must. */
  lemma ConvertDigits(digits: seq<Text>, ns: seq<nat>)
    requires |digits| >= 1 && forall k :: 0 <= k < |digits| ==> |digits[k]| > 0 && AllDigits(digits[k])
    requires |ns| == |digits| && forall k :: 0 <= k < |digits| ==> ns[k] == Value(digits[k])
    ensures var r := Convert(JoinDots(digits));
      && (|ns| > 4 ==> r == Err(TooManyParts))
      && (|ns| <= 4 && Component(ns, 2) > MaxPatch ==> r == Err(SuffixOutOfRange))
      && (|ns| <= 4 && Component(ns, 2) <= MaxPatch ==>
            r == Ok(VersionInfo(Name(Component(ns, 0), Component(ns, 1), Component(ns, 2)),
                                Component(ns, 0), Component(ns, 1), Some(Component(ns, 2)),
                                Component(ns, 3))))
  {
    DigitsHaveNoDot(digits);
    SplitJoinDots(digits);
    assert ToNats(digits).Some?;
    assert ToNats(digits).value == ns;
  }

  /** `major.minor.patch.build`, written the way Comsol prints it: the decimal components joined with dots. */
  function Format(ns: seq<nat>): (t: Text)
    requires |ns| >= 1
  {
    JoinDots(seq(|ns|, k requires 0 <= k < |ns| => Decimal(ns[k])))
  }

  lemma {:induction false} JoinDotsAscii(parts: seq<Text>)
    requires |parts| >= 1 && forall k :: 0 <= k < |parts| ==> IsAscii(parts[k])
    ensures IsAscii(JoinDots(parts))
    decreases |parts|
  {
    if |parts| > 1 {
      JoinDotsAscii(parts[1..]);
    }
  }

  /** A version printed as "Comsol <number>" parses back to its own components, or fails as the parser must. */
  lemma ParseFormatted(ns: seq<nat>)
    requires |ns| >= 1
    ensures IsAscii(FromString("Comsol ") + Format(ns))
    ensures |ns| > 4 ==> Parse(FromString("Comsol ") + Format(ns)) == Err(TooManyParts)
    ensures |ns| <= 4 && Component(ns, 2) > MaxPatch ==>
      Parse(FromString("Comsol ") + Format(ns)) == Err(SuffixOutOfRange)
    ensures |ns| <= 4 && Component(ns, 2) <= MaxPatch ==>
      Parse(FromString("Comsol ") + Format(ns))
         == Ok(VersionInfo(Name(Component(ns, 0), Component(ns, 1), Component(ns, 2)),
                           Component(ns, 0), Component(ns, 1), Some(Component(ns, 2)), Component(ns, 3)))
  {
    var digits := seq(|ns|, k requires 0 <= k < |ns| => Decimal(ns[k]));
    var prefix, filler := FromString("Comsol"), FromString(" ");
    JoinDotsAscii(digits);
    assert FromString("Comsol ") == prefix + filler;
    assert FromString("Comsol ") + Format(ns) == prefix + filler + JoinDots(digits) + [];
    ParseDecomposed(prefix, filler, digits, [], ns);
  }
}
