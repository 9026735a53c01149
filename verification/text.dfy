/** String operations the request handlers rely on: `String.prototype.toLowerCase`
    (restricted to ASCII letters), `String.prototype.trim` and
    `String.prototype.includes`. */
module Text {
  import opened Wrappers

  /** An ASCII capital letter: the only characters this model lower-cases. */
  predicate IsUpper(c: char) {
    'A' <= c <= 'Z'
  }

  function LowerChar(c: char): char {
    if IsUpper(c) then (c as int + 32) as char else c
  }

  /** `toLowerCase` on ASCII: capitals become small letters, every other
      character is kept, and the length never changes. */
  function ToLower(s: string): (r: string)
    ensures |r| == |s|
    ensures forall i :: 0 <= i < |s| ==> r[i] == LowerChar(s[i])
    ensures forall i :: 0 <= i < |r| ==> !IsUpper(r[i])
  {
    seq(|s|, i requires 0 <= i < |s| => LowerChar(s[i]))
  }

  /** A string without capitals is its own lower-case form. */
  lemma ToLowerFixesLowercase(s: string)
    requires forall i :: 0 <= i < |s| ==> !IsUpper(s[i])
    ensures ToLower(s) == s
  {
  }

  /** Lower-casing works character by character, so it distributes over
      concatenation. */
  lemma ToLowerAppend(a: string, b: string)
    ensures ToLower(a + b) == ToLower(a) + ToLower(b)
  {
  }

  /** Lower-casing twice is lower-casing once. */
  lemma ToLowerIdempotent(s: string)
    ensures ToLower(ToLower(s)) == ToLower(s)
  {
    ToLowerFixesLowercase(ToLower(s));
  }

  /** The characters `trim` removes: ECMAScript WhiteSpace (tab, vertical tab,
      form feed, space, no-break space, byte order mark and the space
      separators) and LineTerminator (LF, CR, LS, PS). */
  predicate IsJsSpace(c: char) {
    || c == '\t' || c == '\n' || c == '\U{000B}' || c == '\U{000C}' || c == '\r'
    || c == ' ' || c == '\U{00A0}' || c == '\U{1680}'
    || ('\U{2000}' <= c <= '\U{200A}')
    || c == '\U{2028}' || c == '\U{2029}' || c == '\U{202F}' || c == '\U{205F}'
    || c == '\U{3000}' || c == '\U{FEFF}'
  }

  /** Drops leading white space: the result is the suffix of `s` that starts
      at the first character that is not white space. */
  function TrimStart(s: string): (r: string)
    ensures |r| <= |s| && r == s[|s| - |r|..]
    ensures forall i :: 0 <= i < |s| - |r| ==> IsJsSpace(s[i])
    ensures r == [] || !IsJsSpace(r[0])
  {
    if s != [] && IsJsSpace(s[0]) then TrimStart(s[1..]) else s
  }

  /** Drops trailing white space: the result is the prefix of `s` that ends
      at the last character that is not white space. */
  function TrimEnd(s: string): (r: string)
    ensures |r| <= |s| && r == s[..|r|]
    ensures forall i :: |r| <= i < |s| ==> IsJsSpace(s[i])
    ensures r == [] || !IsJsSpace(r[|r| - 1])
  {
    if s != [] && IsJsSpace(s[|s| - 1]) then TrimEnd(s[..|s| - 1]) else s
  }

  /** `r` is the part of `s` that starts at `a` once white space at both
      ends has been cut off. */
  ghost predicate TrimmedAt(s: string, a: nat, r: string) {
    && a + |r| <= |s|
    && r == s[a..a + |r|]
    && (forall i :: 0 <= i < a ==> IsJsSpace(s[i]))
    && (forall i :: a + |r| <= i < |s| ==> IsJsSpace(s[i]))
  }

  /** A prefix `r` of a suffix `t` of `s`, where everything cut off is white
      space, is what `trim` leaves of `s`. */
  lemma TrimmedFromParts(s: string, t: string, r: string)
    requires |t| <= |s| && t == s[|s| - |t|..]
    requires forall i :: 0 <= i < |s| - |t| ==> IsJsSpace(s[i])
    requires |r| <= |t| && r == t[..|r|]
    requires forall i :: |r| <= i < |t| ==> IsJsSpace(t[i])
    ensures TrimmedAt(s, |s| - |t|, r)
  {
    var a := |s| - |t|;
    assert r == s[a..a + |r|];
    forall i | a + |r| <= i < |s|
      ensures IsJsSpace(s[i])
    {
      assert s[i] == t[i - a];
    }
  }

  /** Cutting white space from the start and then from the end leaves the
      part of `s` starting where the leading white space ends. */
  lemma TrimEndOfTrimStart(s: string)
    ensures TrimmedAt(s, |s| - |TrimStart(s)|, TrimEnd(TrimStart(s)))
  {
    TrimmedFromParts(s, TrimStart(s), TrimEnd(TrimStart(s)));
  }

  /** `trim`: the longest middle part of `s` that neither starts nor ends
      with white space. */
  function Trim(s: string): (r: string)
    ensures exists a: nat :: TrimmedAt(s, a, r)
    ensures r == [] || (!IsJsSpace(r[0]) && !IsJsSpace(r[|r| - 1]))
  {
    TrimEndOfTrimStart(s);
    TrimEnd(TrimStart(s))
  }

  /** Trimming a trimmed string changes nothing. */
  lemma TrimIdempotent(s: string)
    ensures Trim(Trim(s)) == Trim(s)
  {
  }

  /** A string made only of white space trims to the empty string. */
  lemma TrimOfBlank(s: string)
    requires forall i :: 0 <= i < |s| ==> IsJsSpace(s[i])
    ensures Trim(s) == ""
  {
  }

  /** `t` occurs in `s` at position `i`. */
  predicate OccursAt(s: string, t: string, i: nat) {
    i + |t| <= |s| && s[i..i + |t|] == t
  }

  /** `t` occurs somewhere in `s`. */
  ghost predicate Occurs(s: string, t: string) {
    exists i: nat :: OccursAt(s, t, i)
  }

  /** Left-to-right search for `t` in `s` from position `from`: the smallest
      position at or after `from` where `t` occurs, if any. */
  function IndexOfFrom(s: string, t: string, from: nat): (r: Option<nat>)
    decreases |s| - from
    ensures r.Some? ==> from <= r.value && OccursAt(s, t, r.value)
    ensures r.Some? ==> forall j: nat :: from <= j < r.value ==> !OccursAt(s, t, j)
    ensures r.None? ==> forall j: nat :: from <= j ==> !OccursAt(s, t, j)
  {
    if from + |t| > |s| then None
    else if s[from..from + |t|] == t then Some(from)
    else IndexOfFrom(s, t, from + 1)
  }

  /** `includes`: true exactly when `t` occurs somewhere in `s`. */
  function Contains(s: string, t: string): (b: bool)
    ensures b <==> Occurs(s, t)
  {
    var r := IndexOfFrom(s, t, 0);
    if r.Some? then assert OccursAt(s, t, r.value); true else false
  }

  /** Every string contains the empty string. */
  lemma ContainsEmpty(s: string)
    ensures Contains(s, "")
  {
    assert OccursAt(s, "", 0);
  }

  /** A piece of a string without capitals has no capitals. */
  lemma PieceHasNoCapitals(s: string, c: string, i: nat)
    requires forall j :: 0 <= j < |s| ==> !IsUpper(s[j])
    requires OccursAt(s, c, i)
    ensures forall j :: 0 <= j < |c| ==> !IsUpper(c[j])
  {
    forall j | 0 <= j < |c|
      ensures !IsUpper(c[j])
    {
      assert c[j] == s[i + j];
    }
  }

  /** Trimming a piece of a string without capitals leaves a string that
      lower-casing does not change. */
  lemma TrimOfPieceIsLowerCase(s: string, c: string)
    requires forall j :: 0 <= j < |s| ==> !IsUpper(s[j])
    requires Occurs(s, c)
    ensures ToLower(Trim(c)) == Trim(c)
  {
    var i: nat :| OccursAt(s, c, i);
    PieceHasNoCapitals(s, c, i);
    var t := Trim(c);
    var a: nat :| TrimmedAt(c, a, t);
    PieceHasNoCapitals(c, t, a);
    ToLowerFixesLowercase(t);
  }

  /** A string can only contain `t` if it contains `t`'s first character. */
  lemma OccursNeedsFirstChar(s: string, t: string)
    requires t != []
    requires forall i :: 0 <= i < |s| ==> s[i] != t[0]
    ensures !Occurs(s, t)
  {
    forall i: nat | i + |t| <= |s|
      ensures !OccursAt(s, t, i)
    {
      assert s[i..i + |t|][0] == s[i];
    }
  }

  /** `t` does not occur at `i` when one of its characters differs from the
      character of `s` it would cover. */
  lemma NotOccursAtByChar(s: string, t: string, i: nat, j: nat)
    requires j < |t| && i + j < |s| && s[i + j] != t[j]
    ensures !OccursAt(s, t, i)
  {
    if i + |t| <= |s| {
      assert s[i..i + |t|][j] == s[i + j];
    }
  }

  /** A string can only contain `t` where `t`'s first two characters stand
      side by side. */
  lemma OccursNeedsFirstTwo(s: string, t: string)
    requires |t| >= 2
    requires forall i :: 0 <= i < |s| - 1 && s[i] == t[0] ==> s[i + 1] != t[1]
    ensures !Occurs(s, t)
  {
    forall i: nat | i + |t| <= |s|
      ensures !OccursAt(s, t, i)
    {
      assert s[i..i + |t|][0] == s[i];
      assert s[i..i + |t|][1] == s[i + 1];
    }
  }
}
