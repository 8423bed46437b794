/**
 * The version code the patcher reads out of `assets/util_functions.sh`: the digits
 * of the first `MAGISK_VER_CODE=` that is followed by at least one digit, as
 * `re.search(r'MAGISK_VER_CODE=(\d+)', content)` finds them, read with `int()`;
 * 0 when there is no such text.
 */
module VersionCode {
  import opened Text

  const Marker: string := "MAGISK_VER_CODE="

  predicate IsDigit(c: char) {
    '0' <= c <= '9'
  }

  predicate AllDigits(s: string) {
    forall k :: 0 <= k < |s| ==> IsDigit(s[k])
  }

  /** Python's `int()` of a run of ASCII digits (leading zeros allowed). */
  function DigitsValue(ds: string): nat
    requires AllDigits(ds)
    decreases |ds|
  {
    if |ds| == 0 then 0
    else DigitsValue(ds[..|ds| - 1]) * 10 + (ds[|ds| - 1] as int - '0' as int)
  }

  /** The canonical decimal spelling of `n`, as a version script writes it. */
  function Decimal(n: nat): (ds: string)
    ensures |ds| >= 1 && AllDigits(ds)
    decreases n
  {
    if n < 10 then [('0' as int + n) as char]
    else Decimal(n / 10) + [('0' as int + n % 10) as char]
  }

  /** Reading a number back from its decimal spelling gives the number. */
  lemma {:induction false} DecimalValue(n: nat)
    ensures DigitsValue(Decimal(n)) == n
    decreases n
  {
    if n >= 10 {
      var ds := Decimal(n);
      DecimalValue(n / 10);
      assert ds[..|ds| - 1] == Decimal(n / 10);
    }
  }

  /** Length of the leading run of digits: what the greedy `\d+` consumes. */
  function DigitRun(s: string): (n: nat)
    ensures n <= |s| && AllDigits(s[..n])
    ensures n == |s| || !IsDigit(s[n])
    decreases |s|
  {
    if |s| > 0 && IsDigit(s[0]) then
      var n := 1 + DigitRun(s[1..]);
      assert s[..n] == [s[0]] + s[1..][..n - 1];
      n
    else 0
  }

  /** The pattern matches at `i`: the marker, then at least one digit. */
  predicate MatchAt(s: string, i: int) {
    OccursAt(s, Marker, i) && i + |Marker| < |s| && IsDigit(s[i + |Marker|])
  }

  /** The number a match at `i` captures. */
  function CodeAt(s: string, i: int): nat
    requires MatchAt(s, i)
  {
    var rest := s[i + |Marker|..];
    DigitsValue(rest[..DigitRun(rest)])
  }

  function ScanFrom(s: string, i: nat): (r: nat)
    requires i <= |s|
    ensures (forall j :: i <= j < |s| ==> !MatchAt(s, j)) ==> r == 0
    ensures forall j ::
              i <= j < |s| && MatchAt(s, j) && (forall k :: i <= k < j ==> !MatchAt(s, k))
              ==> r == CodeAt(s, j)
    decreases |s| - i
  {
    if i == |s| then 0
    else if MatchAt(s, i) then CodeAt(s, i)
    else ScanFrom(s, i + 1)
  }

  /**
   * The version code of a script's text: the number after the leftmost match,
   * or 0 when nothing matches.
   */
  function ParseVersionCode(content: string): (code: nat)
    ensures (forall j :: 0 <= j < |content| ==> !MatchAt(content, j)) ==> code == 0
    ensures forall j ::
              0 <= j < |content| && MatchAt(content, j) && (forall k :: 0 <= k < j ==> !MatchAt(content, k))
              ==> code == CodeAt(content, j)
  {
    ScanFrom(content, 0)
  }

  /** A digit run followed by a non-digit is consumed exactly. */
  lemma {:induction false} RunThenStop(ds: string, after: string)
    requires AllDigits(ds)
    requires after == [] || !IsDigit(after[0])
    ensures DigitRun(ds + after) == |ds|
    decreases |ds|
  {
    if |ds| == 0 {
      assert ds + after == after;
    } else {
      RunThenStop(ds[1..], after);
      assert (ds + after)[1..] == ds[1..] + after;
    }
  }

  /** The marker holds no digit. */
  lemma MarkerHasNoDigit(i: nat)
    requires i < |Marker|
    ensures !IsDigit(Marker[i])
  {
  }

  /**
   * A match cannot run from `before` into a following marker: the digit it
   * needs would fall inside `before` (so `before` matched already) or inside
   * the marker, which holds no digit.
   */
  lemma NoMatchIntoMarker(before: string, tail: string)
    requires forall k :: 0 <= k < |before| ==> !MatchAt(before, k)
    requires |Marker| <= |tail| && tail[..|Marker|] == Marker
    ensures forall k :: 0 <= k < |before| ==> !MatchAt(before + tail, k)
  {
    var s := before + tail;
    forall k | 0 <= k < |before|
      ensures !MatchAt(s, k)
    {
      var j := k + |Marker|;
      if MatchAt(s, k) {
        if j < |before| {
          assert s[k..j] == before[k..j];
          assert s[j] == before[j];
          assert MatchAt(before, k);
        } else {
          assert s[j] == tail[..|Marker|][j - |before|];
          MarkerHasNoDigit(j - |before|);
        }
      }
    }
  }

  /** The leftmost match decides the version code. */
  lemma FirstMatchDecides(s: string, i: nat)
    requires i < |s| && MatchAt(s, i)
    requires forall k :: 0 <= k < i ==> !MatchAt(s, k)
    ensures ParseVersionCode(s) == CodeAt(s, i)
  {
  }

  lemma NoEarlierMatch(before: string, n: nat, after: string)
    requires forall k :: 0 <= k < |before| ==> !MatchAt(before, k)
    ensures forall k :: 0 <= k < |before| ==> !MatchAt(before + Marker + Decimal(n) + after, k)
  {
    var s := before + Marker + Decimal(n) + after;
    assert s == before + (Marker + Decimal(n) + after);
    assert (Marker + Decimal(n) + after)[..|Marker|] == Marker;
    NoMatchIntoMarker(before, Marker + Decimal(n) + after);
  }

  /** A match is a property of the text from its start on, whatever precedes it. */
  lemma ShiftMatch(before: string, tail: string)
    ensures MatchAt(before + tail, |before|) <==> MatchAt(tail, 0)
    ensures MatchAt(tail, 0) ==> CodeAt(before + tail, |before|) == CodeAt(tail, 0)
  {
    var s := before + tail;
    assert s[|before|..] == tail;
    if |tail| >= |Marker| {
      assert s[|before|..|before| + |Marker|] == tail[..|Marker|];
    }
    if MatchAt(tail, 0) {
      assert s[|before| + |Marker|..] == tail[|Marker|..];
    }
  }

  lemma ConcatParts(m: string, ds: string, after: string)
    ensures |m + ds + after| == |m| + |ds| + |after|
    ensures (m + ds + after)[0..|m|] == m
    ensures (m + ds + after)[|m|..] == ds + after
  {
  }

  /** A declaration at the very start captures its digits and nothing after them. */
  lemma DeclarationAtStart(ds: string, after: string)
    requires |ds| >= 1 && AllDigits(ds)
    requires after == [] || !IsDigit(after[0])
    ensures MatchAt(Marker + ds + after, 0)
    ensures CodeAt(Marker + ds + after, 0) == DigitsValue(ds)
  {
    var t := Marker + ds + after;
    var rest := ds + after;
    ConcatParts(Marker, ds, after);
    assert t[|Marker|] == rest[0];
    RunThenStop(ds, after);
    assert rest[..|ds|] == ds;
  }

  /** The declaration sits at the end of `before` and captures `n`. */
  lemma DeclarationMatches(before: string, n: nat, after: string)
    requires after == [] || !IsDigit(after[0])
    ensures MatchAt(before + Marker + Decimal(n) + after, |before|)
    ensures CodeAt(before + Marker + Decimal(n) + after, |before|) == n
  {
    var ds := Decimal(n);
    var tail := Marker + ds + after;
    assert before + Marker + ds + after == before + tail;
    DeclarationAtStart(ds, after);
    ShiftMatch(before, tail);
    DecimalValue(n);
  }

  /**
   * Round trip: a script that declares `MAGISK_VER_CODE=<n>`, with no earlier
   * declaration in front of it and no digit right after it, yields the
   * version code `n`. The text in front may mention Magisk freely (the
   * script's header and its `MAGISK_VER=` line do).
   */
  lemma DeclaredCodeIsRead(before: string, n: nat, after: string)
    requires forall k :: 0 <= k < |before| ==> !MatchAt(before, k)
    requires after == [] || !IsDigit(after[0])
    ensures ParseVersionCode(before + Marker + Decimal(n) + after) == n
  {
    NoEarlierMatch(before, n, after);
    DeclarationMatches(before, n, after);
    FirstMatchDecides(before + Marker + Decimal(n) + after, |before|);
  }
}
