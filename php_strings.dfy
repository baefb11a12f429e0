/**
 * The two PHP string primitives the request handler relies on:
 * `trim` with its default character list and `empty` applied to a string.
 */
module PhpStrings {

  /** The characters `trim` strips when it is given no list: space, tab,
      line feed, carriage return, NUL and vertical tab. */
  predicate IsTrimChar(c: char) {
    c == ' ' || c == '\t' || c == '\n' || c == '\r' || c == '\0' || c == '\U{000B}'
  }

  ghost predicate AllTrimChars(s: string) {
    forall i | 0 <= i < |s| :: IsTrimChar(s[i])
  }

  /** True when `s` has no strippable character at either end. */
  predicate IsTrimmed(s: string) {
    s == [] || (!IsTrimChar(s[0]) && !IsTrimChar(s[|s| - 1]))
  }

  /** `empty($s)` for a string `$s`: only "" and "0" are empty. */
  predicate PhpEmpty(s: string) {
    s == "" || s == "0"
  }

  /** Strips leading strippable characters. */
  function TrimLeft(s: string): string {
    if |s| > 0 && IsTrimChar(s[0]) then TrimLeft(s[1..]) else s
  }

  /** Strips trailing strippable characters. */
  function TrimRight(s: string): string {
    if |s| > 0 && IsTrimChar(s[|s| - 1]) then TrimRight(s[..|s| - 1]) else s
  }

  /** `TrimLeft` keeps the suffix of `s` that starts at its first character
      outside the strip list, and drops only strippable characters. */
  lemma {:induction false} TrimLeftShape(s: string)
    ensures |TrimLeft(s)| <= |s| && TrimLeft(s) == s[|s| - |TrimLeft(s)|..]
    ensures AllTrimChars(s[..|s| - |TrimLeft(s)|])
    ensures TrimLeft(s) == [] || !IsTrimChar(TrimLeft(s)[0])
  {
    if |s| > 0 && IsTrimChar(s[0]) {
      TrimLeftShape(s[1..]);
      var r := TrimLeft(s);
      assert s[..|s| - |r|] == [s[0]] + s[1..][..|s| - 1 - |r|];
    }
  }

  /** `TrimRight` keeps the prefix of `s` that ends at its last character
      outside the strip list, and drops only strippable characters. */
  lemma {:induction false} TrimRightShape(s: string)
    ensures |TrimRight(s)| <= |s| && TrimRight(s) == s[..|TrimRight(s)|]
    ensures AllTrimChars(s[|TrimRight(s)|..])
    ensures TrimRight(s) == [] || !IsTrimChar(TrimRight(s)[|TrimRight(s)| - 1])
  {
    if |s| > 0 && IsTrimChar(s[|s| - 1]) {
      TrimRightShape(s[..|s| - 1]);
      var r := TrimRight(s);
      assert s[|r|..] == s[..|s| - 1][|r|..] + [s[|s| - 1]];
    }
  }

  /** Where the kept part of `s` starts: after its leading strippable run. */
  function Start(s: string): (i: nat)
    ensures i <= |s|
  {
    TrimLeftShape(s);
    |s| - |TrimLeft(s)|
  }

  /** PHP `trim($s)`: strips strippable characters from both ends. */
  function Trim(s: string): (r: string)
    ensures |r| <= |s|
    ensures IsTrimmed(r)
  {
    TrimLeftShape(s);
    TrimRightShape(TrimLeft(s));
    TrimRight(TrimLeft(s))
  }

  /** What `trim` keeps is the infix of `s` that starts at `Start(s)`, with
      only strippable characters around it. */
  lemma TrimShape(s: string)
    ensures Start(s) + |Trim(s)| <= |s|
    ensures Trim(s) == s[Start(s)..Start(s) + |Trim(s)|]
    ensures AllTrimChars(s[..Start(s)]) && AllTrimChars(s[Start(s) + |Trim(s)|..])
  {
    var l := TrimLeft(s);
    var r := TrimRight(l);
    TrimLeftShape(s);
    TrimRightShape(l);
    assert l == s[Start(s)..];
    assert l[|r|..] == s[Start(s) + |r|..];
  }

  /** A string that already has clean ends is left alone by `trim`. */
  lemma TrimOfTrimmed(s: string)
    requires IsTrimmed(s)
    ensures Trim(s) == s
  {
    assert TrimLeft(s) == s;
  }

  /** Applying `trim` twice is the same as applying it once. */
  lemma TrimIdempotent(s: string)
    ensures Trim(Trim(s)) == Trim(s)
  {
    TrimOfTrimmed(Trim(s));
  }

  /** A string of strippable characters only is stripped to nothing. */
  lemma {:induction false} TrimLeftAll(s: string)
    requires AllTrimChars(s)
    ensures TrimLeft(s) == []
  {
    if s != [] {
      assert IsTrimChar(s[0]);
      TrimLeftAll(s[1..]);
    }
  }

  /** Stripping from the left stops at the first character outside the list. */
  lemma {:induction false} TrimLeftStops(s: string, i: int)
    requires 0 <= i < |s| && AllTrimChars(s[..i]) && !IsTrimChar(s[i])
    ensures TrimLeft(s) == s[i..]
  {
    if i > 0 {
      assert IsTrimChar(s[..i][0]);
      assert s[1..][..i - 1] == s[..i][1..];
      assert s[1..][i - 1] == s[i];
      TrimLeftStops(s[1..], i - 1);
      assert s[1..][i - 1..] == s[i..];
    }
  }

  /** Stripping from the right stops at the last character outside the list. */
  lemma {:induction false} TrimRightStops(s: string, j: int)
    requires 0 < j <= |s| && AllTrimChars(s[j..]) && !IsTrimChar(s[j - 1])
    ensures TrimRight(s) == s[..j]
    decreases |s| - j
  {
    if j < |s| {
      var n := |s|;
      assert IsTrimChar(s[j..][n - 1 - j]);
      assert s[..n - 1][j..] == s[j..][..n - 1 - j];
      assert s[..n - 1][j - 1] == s[j - 1];
      TrimRightStops(s[..n - 1], j);
      assert s[..n - 1][..j] == s[..j];
    }
  }

  /** `trim` is determined by its characterisation: any infix `s[i..j]`
      surrounded by strippable characters, with clean ends, is `Trim(s)`. */
  lemma TrimUnique(s: string, i: int, j: int)
    requires 0 <= i <= j <= |s|
    requires AllTrimChars(s[..i]) && AllTrimChars(s[j..])
    requires IsTrimmed(s[i..j])
    ensures Trim(s) == s[i..j]
  {
    if i == j {
      forall k | 0 <= k < |s| ensures IsTrimChar(s[k]) {
        if k < i { assert s[..i][k] == s[k]; } else { assert s[j..][k - j] == s[k]; }
      }
      TrimLeftAll(s);
    } else {
      assert s[i] == s[i..j][0] && s[j - 1] == s[i..j][j - i - 1];
      TrimLeftStops(s, i);
      var l := s[i..];
      assert l[j - i..] == s[j..] && l[j - i - 1] == s[j - 1];
      TrimRightStops(l, j - i);
      assert l[..j - i] == s[i..j];
    }
  }

  /** A title passes the handler's check when it is non-empty in PHP's sense
      after trimming. */
  predicate TitleAccepted(raw: string) {
    !PhpEmpty(Trim(raw))
  }

  /** What a stored title looks like: no strippable character at either end
      and not PHP-empty, so `trim` leaves it alone and it is non-empty. */
  predicate CleanTitle(t: string) {
    IsTrimmed(t) && !PhpEmpty(t)
  }

  /** A clean title is a fixed point of `trim` that is not PHP-empty. */
  lemma CleanTitleTrimmed(t: string)
    requires CleanTitle(t)
    ensures Trim(t) == t && !PhpEmpty(Trim(t)) && Trim(t) != ""
  {
    TrimOfTrimmed(t);
  }

  /** The raw titles whose trimmed form is clean are exactly the accepted
      ones, so what the handler stores for an accepted title is clean. */
  lemma AcceptedTitleIsClean(raw: string)
    ensures TitleAccepted(raw) <==> CleanTitle(Trim(raw))
  {
  }
}
