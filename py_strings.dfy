/** The few Python `str` operations the service relies on, with Python's semantics:
    truthiness of an optional string, `startswith`, `replace(old, "")`, `strip()`,
    slicing `s[a:b]` and `str(n)` for a natural number. Strings are sequences of
    Unicode scalar values; Python's are of code points, which may also be lone
    surrogates. */
module PyStrings {
  import opened Wrappers

  /** `not s` is false: the value is present and non-empty (`None` and `""` are falsy). */
  predicate Truthy(s: Option<string>)
    ensures !Truthy(s) <==> s == None || s == Some("")
  {
    s.Some? && s.value != ""
  }

  /** `str.isspace()` for one character: the characters Python strips by default. */
  predicate IsSpace(c: char) {
    var n := c as int;
    (9 <= n <= 13) || (28 <= n <= 32) || n == 0x85 || n == 0xA0 || n == 0x1680 ||
    (0x2000 <= n <= 0x200A) || n == 0x2028 || n == 0x2029 || n == 0x202F ||
    n == 0x205F || n == 0x3000
  }

  /** `s.startswith(prefix)`: case-sensitive, character by character. */
  predicate StartsWith(s: string, prefix: string)
    ensures StartsWith(s, prefix) <==>
      |prefix| <= |s| && forall i :: 0 <= i < |prefix| ==> s[i] == prefix[i]
    ensures StartsWith(s, prefix) ==> s == prefix + s[|prefix|..]
  {
    |prefix| <= |s| && s[..|prefix|] == prefix
  }

  /** `pat` occurs somewhere in `s` (`pat in s`). */
  predicate Occurs(pat: string, s: string) {
    StartsWith(s, pat) || (s != [] && Occurs(pat, s[1..]))
  }

  /** `s.replace(pat, "")`: scans left to right and deletes every non-overlapping
      occurrence of `pat`, resuming after each deleted occurrence. The result is `s`
      itself exactly when `pat` does not occur, and strictly shorter otherwise. */
  function RemoveAll(s: string, pat: string): (r: string)
    requires pat != []
    ensures |r| <= |s|
    ensures r == s <==> !Occurs(pat, s)
    ensures Occurs(pat, s) ==> |r| < |s|
    decreases |s|
  {
    if |s| < |pat| then
      assert !Occurs(pat, s) by { NoOccurrenceInShort(pat, s); }
      s
    else if s[..|pat|] == pat then
      RemoveAll(s[|pat|..], pat)
    else
      [s[0]] + RemoveAll(s[1..], pat)
  }

  /** Every occurrence is deleted, not only the first: once the scan has passed a prefix
      `x` in which no occurrence starts, deletes the occurrence after it and goes on to
      delete in the rest. */
  lemma {:induction false} RemoveAllAfterFirst(x: string, pat: string, y: string)
    requires pat != []
    requires forall i :: 0 <= i < |x| ==> !StartsWith((x + pat + y)[i..], pat)
    ensures RemoveAll(x + pat + y, pat) == x + RemoveAll(y, pat)
    decreases |x|
  {
    var s := x + pat + y;
    if x == [] {
      assert s == pat + y;
      RemoveAllLeading(pat, y);
    } else {
      assert !StartsWith(s, pat) by { assert s[0..] == s; }
      RemoveAllKeepsFirst(s, pat);
      TailOfJoin(x, pat, y);
      NoOccurrenceInTail(x, pat, y);
      RemoveAllAfterFirst(x[1..], pat, y);
      HeadThenTail(x, RemoveAll(y, pat));
    }
  }

  /** Dropping the first character of `x + pat + y` drops it from `x`. */
  lemma TailOfJoin(x: string, pat: string, y: string)
    requires x != []
    ensures (x + pat + y)[0] == x[0] && (x + pat + y)[1..] == x[1..] + pat + y
  {
  }

  /** Putting the first character of `x` back in front of the rest of `x`. */
  lemma HeadThenTail(x: string, r: string)
    requires x != []
    ensures [x[0]] + (x[1..] + r) == x + r
  {
  }

  /** Where no occurrence starts, the first character is kept and the scan moves on. */
  lemma RemoveAllKeepsFirst(s: string, pat: string)
    requires pat != [] && s != [] && !StartsWith(s, pat)
    ensures RemoveAll(s, pat) == [s[0]] + RemoveAll(s[1..], pat)
  {
  }

  /** No occurrence starting inside `x` means none starting inside its tail either. */
  lemma NoOccurrenceInTail(x: string, pat: string, y: string)
    requires x != []
    requires forall i :: 0 <= i < |x| ==> !StartsWith((x + pat + y)[i..], pat)
    ensures forall i :: 0 <= i < |x[1..]| ==> !StartsWith((x[1..] + pat + y)[i..], pat)
  {
    var s, s' := x + pat + y, x[1..] + pat + y;
    forall i | 0 <= i < |x[1..]|
      ensures !StartsWith(s'[i..], pat)
    {
      assert s'[i..] == s[i + 1..];
    }
  }

  lemma {:induction false} NoOccurrenceInShort(pat: string, s: string)
    requires pat != [] && |s| < |pat|
    ensures !Occurs(pat, s)
    decreases |s|
  {
    if s != [] {
      NoOccurrenceInShort(pat, s[1..]);
    }
  }

  /** Deleting a leading occurrence costs nothing more: `(pat + t).replace(pat, "")`
      is `t.replace(pat, "")`. */
  lemma RemoveAllLeading(pat: string, t: string)
    requires pat != []
    ensures RemoveAll(pat + t, pat) == RemoveAll(t, pat)
  {
  }

  /** `s.lstrip()`: drops the leading run of whitespace and nothing else. */
  function TrimStart(s: string): (r: string)
    ensures |r| <= |s| && r == s[|s| - |r|..]
    ensures forall i :: 0 <= i < |s| - |r| ==> IsSpace(s[i])
    ensures r == [] || !IsSpace(r[0])
  {
    if s != [] && IsSpace(s[0]) then TrimStart(s[1..]) else s
  }

  /** `s.rstrip()`: drops the trailing run of whitespace and nothing else. */
  function TrimEnd(s: string): (r: string)
    ensures |r| <= |s| && r == s[..|r|]
    ensures forall i :: |r| <= i < |s| ==> IsSpace(s[i])
    ensures r == [] || !IsSpace(r[|r| - 1])
  {
    if s != [] && IsSpace(s[|s| - 1]) then TrimEnd(s[..|s| - 1]) else s
  }

  /** `s.strip()`: the part of `s` between its leading and trailing whitespace runs.
      The result neither starts nor ends with whitespace, and everything removed is
      whitespace. */
  function Strip(s: string): (r: string)
    ensures |r| <= |s|
    ensures r == [] || (!IsSpace(r[0]) && !IsSpace(r[|r| - 1]))
  {
    var t := TrimStart(s);
    var r := TrimEnd(t);
    // An all-whitespace trim is empty, so nothing is left for TrimEnd to see.
    assert r == [] ==> t == [];
    r
  }

  /** `strip()` removes whitespace at the ends and nothing else: the result is the
      infix of `s` that starts where the leading whitespace run ends, and every
      character outside it is whitespace. */
  lemma StripInfix(s: string)
    ensures var r, i := Strip(s), |s| - |TrimStart(s)|;
      i + |r| <= |s| && r == s[i..i + |r|] &&
      forall k :: 0 <= k < i || i + |r| <= k < |s| ==> IsSpace(s[k])
  {
    var t := TrimStart(s);
    var r := TrimEnd(t);
    var i := |s| - |t|;
    assert t == s[i..];
    assert r == t[..|r|];
    forall k | i + |r| <= k < |s|
      ensures IsSpace(s[k])
    {
      assert s[k] == t[k - i];
    }
  }

  /** A string strips to nothing exactly when it is all whitespace. */
  lemma StripEmpty(s: string)
    ensures Strip(s) == [] <==> forall i :: 0 <= i < |s| ==> IsSpace(s[i])
  {
  }

  /** Appending whitespace to a string with a non-space character leaves its
      leading-whitespace trim unchanged apart from the appended text. */
  lemma {:induction false} TrimStartAppend(s: string, t: string)
    requires TrimStart(s) != []
    ensures TrimStart(s + t) == TrimStart(s) + t
  {
    assert (s + t)[0] == s[0];
    if IsSpace(s[0]) {
      assert TrimStart(s) == TrimStart(s[1..]);
      assert (s + t)[1..] == s[1..] + t;
      TrimStartAppend(s[1..], t);
    } else {
      assert TrimStart(s) == s;
    }
  }

  /** A string made only of whitespace trims to whatever follows it. */
  lemma {:induction false} TrimStartAllSpace(s: string, t: string)
    requires TrimStart(s) == []
    ensures TrimStart(s + t) == TrimStart(t)
  {
    if s != [] {
      assert IsSpace(s[0]);
      assert (s + t)[1..] == s[1..] + t;
      TrimStartAllSpace(s[1..], t);
    } else {
      assert s + t == t;
    }
  }

  /** Stripping ignores one more trailing whitespace character:
      `(s + c).strip() == s.strip()` when `c` is whitespace. */
  lemma StripTrailingSpace(s: string, c: char)
    requires IsSpace(c)
    ensures Strip(s + [c]) == Strip(s)
  {
    if TrimStart(s) == [] {
      TrimStartAllSpace(s, [c]);
    } else {
      TrimStartAppend(s, [c]);
      var t := TrimStart(s);
      assert (t + [c])[..|t + [c]| - 1] == t;
    }
  }

  function Min(a: int, b: int): int {
    if a < b then a else b
  }

  /** Python's clamping of one slice bound against a sequence of length `n`:
      negative bounds count from the end, and the result lies in `0..n`. */
  function ClampIndex(i: int, n: nat): (k: nat)
    ensures k <= n
    ensures 0 <= i <= n ==> k == i
  {
    if i < 0 then (if i + n < 0 then 0 else i + n)
    else if i > n then n
    else i
  }

  /** `s[start:stop]`, which never fails: out-of-range bounds are clamped, and an
      empty slice results when the bounds cross. For bounds inside `s` it is the
      sub-sequence between them; past the end it is cut at the end. */
  function Slice(s: string, start: int, stop: int): (r: string)
    ensures |r| <= |s|
    ensures 0 <= start <= stop <= |s| ==> r == s[start..stop]
    ensures 0 <= start <= stop ==> r == s[Min(start, |s|)..Min(stop, |s|)]
    ensures |s| <= start ==> r == []
  {
    var lo := ClampIndex(start, |s|);
    var hi := ClampIndex(stop, |s|);
    if lo >= hi then [] else s[lo..hi]
  }

  function DigitChar(d: nat): (c: char)
    requires d < 10
    ensures '0' <= c <= '9'
    ensures c as int - '0' as int == d
  {
    ['0', '1', '2', '3', '4', '5', '6', '7', '8', '9'][d]
  }

  /** `str(n)` for a natural number: its decimal digits, most significant first. */
  function NatToString(n: nat): (r: string)
    ensures r != []
    ensures forall i :: 0 <= i < |r| ==> '0' <= r[i] <= '9'
    ensures DecimalValue(r) == n
    ensures n > 0 ==> r[0] != '0'
  {
    if n < 10 then
      [DigitChar(n)]
    else
      var r := NatToString(n / 10) + [DigitChar(n % 10)];
      assert r[..|r| - 1] == NatToString(n / 10);
      r
  }

  /** The number a string of decimal digits denotes, most significant digit first. */
  function DecimalValue(s: string): (v: nat)
    requires forall i :: 0 <= i < |s| ==> '0' <= s[i] <= '9'
    ensures s == [] ==> v == 0
  {
    if s == [] then 0 else DecimalValue(s[..|s| - 1]) * 10 + (s[|s| - 1] as int - '0' as int)
  }
}
