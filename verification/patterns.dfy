/** The two regular expressions of the chat handler, as explicit scanners over
    the lower-cased message, together with a declarative description of the
    match that ECMAScript's backtracking matcher (section 22.2 of ECMA-262)
    returns for a non-global `String.prototype.match`:

      OrderId       /order id (\d+)/
      StockLazy     /how many (.+?) (?:are left|in stock)/
      StockGreedy   /how many (.+)/

    Each pattern is a fixed nine-character prefix followed by one capture
    group of at least one character; the lazy pattern also needs
    ` are left` or ` in stock` right after the group. */
module Patterns {
  import opened Wrappers
  import opened Text

  datatype Pattern = OrderId | StockLazy | StockGreedy

  /** A successful match: where it starts and what capture group 1 holds. */
  datatype Match = Match(start: nat, group: string)

  /** The literal text each pattern starts with: nine characters without
      capitals or line terminators, ending in a space. Being lower case, it
      can occur in the lower-cased message the patterns are matched against. */
  function Prefix(p: Pattern): (t: string)
    ensures |t| == 9 && t[8] == ' '
    ensures forall i :: 0 <= i < |t| ==> !IsUpper(t[i]) && !IsLineTerminator(t[i])
    ensures ToLower(t) == t
  {
    if p.OrderId? then "order id " else "how many "
  }

  /** `\d` without the `u` flag: the ASCII digits only. */
  predicate IsDigit(c: char) {
    '0' <= c <= '9'
  }

  /** The characters `.` refuses: LF, CR, LS and PS. */
  predicate IsLineTerminator(c: char) {
    c == '\n' || c == '\r' || c == '\U{2028}' || c == '\U{2029}'
  }

  /** The characters the capture group's atom (`\d` or `.`) accepts. */
  predicate InGroup(p: Pattern, c: char) {
    if p.OrderId? then IsDigit(c) else !IsLineTerminator(c)
  }

  /** What the lazy pattern needs right after its group: the alternation
      ` (?:are left|in stock)`. */
  predicate StockSuffixAt(s: string, k: nat) {
    OccursAt(s, " are left", k) || OccursAt(s, " in stock", k)
  }

  /** Pattern `p` can match `s` starting at `i` with a group of `n`
      characters: the prefix, then `n >= 1` characters the atom accepts,
      then (for the lazy pattern) the suffix. */
  ghost predicate MatchesWith(p: Pattern, s: string, i: nat, n: nat) {
    && OccursAt(s, Prefix(p), i)
    && 1 <= n && i + 9 + n <= |s|
    && (forall j :: i + 9 <= j < i + 9 + n ==> InGroup(p, s[j]))
    && (p.StockLazy? ==> StockSuffixAt(s, i + 9 + n))
  }

  /** The backtracking matcher tries group length `k` before length `n` at
      the same start: greedy quantifiers try longer groups first, the lazy
      one shorter groups first. */
  predicate TriedBefore(p: Pattern, k: nat, n: nat) {
    if p.StockLazy? then k < n else k > n
  }

  /** `m` is the match `String.prototype.match` returns: the leftmost start
      at which the pattern can match, and at that start the first group
      length the quantifier tries that lets the rest of the pattern match. */
  ghost predicate IsFirstMatch(p: Pattern, s: string, m: Match) {
    && MatchesWith(p, s, m.start, |m.group|)
    && m.group == s[m.start + 9..m.start + 9 + |m.group|]
    && (forall i: nat, k: nat :: i < m.start ==> !MatchesWith(p, s, i, k))
    && (forall k: nat :: TriedBefore(p, k, |m.group|) ==> !MatchesWith(p, s, m.start, k))
  }

  /** Length of the longest run, starting at `k`, of characters the atom of
      `p` accepts. */
  function RunLength(p: Pattern, s: string, k: nat): (n: nat)
    requires k <= |s|
    decreases |s| - k
    ensures k + n <= |s|
    ensures forall j :: k <= j < k + n ==> InGroup(p, s[j])
    ensures k + n == |s| || !InGroup(p, s[k + n])
  {
    if k < |s| && InGroup(p, s[k]) then 1 + RunLength(p, s, k + 1) else 0
  }

  /** The lazy group starting at `k` can be `n` characters long. */
  ghost predicate LazyGroupFits(s: string, k: nat, n: nat) {
    && 1 <= n && k + n <= |s|
    && (forall j :: k <= j < k + n ==> !IsLineTerminator(s[j]))
    && StockSuffixAt(s, k + n)
  }

  /** `(.+?)` followed by the suffix: grows the group one character at a
      time from length `n`, stopping at the first length the suffix
      follows, or failing at a line terminator or the end of the string. */
  function ShortestLazyGroup(s: string, k: nat, n: nat): (r: Option<nat>)
    requires 1 <= n && k + n <= |s| + 1
    requires forall j :: k <= j < k + n - 1 ==> !IsLineTerminator(s[j])
    decreases |s| + 1 - (k + n)
    ensures r.Some? ==> n <= r.value && LazyGroupFits(s, k, r.value)
    ensures r.Some? ==> forall m: nat :: n <= m < r.value ==> !LazyGroupFits(s, k, m)
    ensures r.None? ==> forall m: nat :: n <= m ==> !LazyGroupFits(s, k, m)
  {
    if k + n > |s| || IsLineTerminator(s[k + n - 1]) then None
    else if StockSuffixAt(s, k + n) then Some(n)
    else ShortestLazyGroup(s, k, n + 1)
  }

  /** The group length the matcher settles on when it starts at `i`, or
      None when no attempt from `i` succeeds. */
  function GroupLengthAt(p: Pattern, s: string, i: nat): (r: Option<nat>)
    ensures r.Some? ==> MatchesWith(p, s, i, r.value)
    ensures r.Some? ==> forall k: nat :: TriedBefore(p, k, r.value) ==> !MatchesWith(p, s, i, k)
    ensures r.None? ==> forall k: nat :: !MatchesWith(p, s, i, k)
  {
    if !OccursAt(s, Prefix(p), i) then None
    else if p.StockLazy? then
      var r := ShortestLazyGroup(s, i + 9, 1);
      assert forall k: nat :: MatchesWith(p, s, i, k) <==> LazyGroupFits(s, i + 9, k);
      r
    else
      var n := RunLength(p, s, i + 9);
      if n == 0 then None else Some(n)
  }

  /** No attempt starting in `[from, to)` succeeds. */
  ghost predicate NoMatchBetween(p: Pattern, s: string, from: nat, to: nat) {
    forall i: nat, k: nat :: from <= i < to ==> !MatchesWith(p, s, i, k)
  }

  /** No attempt starting at or after `from` succeeds. */
  ghost predicate NoMatchFrom(p: Pattern, s: string, from: nat) {
    forall i: nat, k: nat :: from <= i ==> !MatchesWith(p, s, i, k)
  }

  /** `m` is what the matcher settles on when it starts at `m.start`: a
      successful attempt whose group length is the first one tried that
      works. */
  ghost predicate SettlesOn(p: Pattern, s: string, m: Match) {
    && MatchesWith(p, s, m.start, |m.group|)
    && m.group == s[m.start + 9..m.start + 9 + |m.group|]
    && (forall k: nat :: TriedBefore(p, k, |m.group|) ==> !MatchesWith(p, s, m.start, k))
  }

  /** Tries every start from `from` onwards, left to right, and returns the
      first successful attempt. */
  function SearchFrom(p: Pattern, s: string, from: nat): (r: Option<Match>)
    decreases |s| - from
    ensures r.Some? ==> from <= r.value.start && SettlesOn(p, s, r.value)
    ensures r.Some? ==> NoMatchBetween(p, s, from, r.value.start)
    ensures r.None? ==> NoMatchFrom(p, s, from)
  {
    if from + 9 > |s| then
      None
    else
      var here := GroupLengthAt(p, s, from);
      if here.Some? then
        Some(Match(from, s[from + 9..from + 9 + here.value]))
      else
        var r := SearchFrom(p, s, from + 1);
        assert r.Some? ==> NoMatchBetween(p, s, from, r.value.start);
        r
  }

  /** `s.match(p)`: the first match, or None (JavaScript's `null`). */
  function FirstMatch(p: Pattern, s: string): (r: Option<Match>)
    ensures r.None? <==> forall i: nat, k: nat :: !MatchesWith(p, s, i, k)
    ensures r.Some? ==> IsFirstMatch(p, s, r.value)
  {
    SearchFrom(p, s, 0)
  }

  /** At most one match satisfies the declarative description. */
  lemma FirstMatchUnique(p: Pattern, s: string, m1: Match, m2: Match)
    requires IsFirstMatch(p, s, m1) && IsFirstMatch(p, s, m2)
    ensures m1 == m2
  {
    assert m1.start == m2.start by {
      assert !(m1.start < m2.start) by {
        assert MatchesWith(p, s, m1.start, |m1.group|);
      }
      assert !(m2.start < m1.start) by {
        assert MatchesWith(p, s, m2.start, |m2.group|);
      }
    }
    assert |m1.group| == |m2.group| by {
      assert !TriedBefore(p, |m1.group|, |m2.group|) by {
        assert MatchesWith(p, s, m1.start, |m1.group|);
      }
      assert !TriedBefore(p, |m2.group|, |m1.group|) by {
        assert MatchesWith(p, s, m2.start, |m2.group|);
      }
    }
  }

  /** The scanner agrees with the declarative description in both
      directions: it returns `m` exactly when `m` is the first match. */
  lemma FirstMatchCharacterised(p: Pattern, s: string, m: Match)
    ensures FirstMatch(p, s) == Some(m) <==> IsFirstMatch(p, s, m)
  {
    if IsFirstMatch(p, s, m) {
      assert MatchesWith(p, s, m.start, |m.group|);
      FirstMatchUnique(p, s, FirstMatch(p, s).value, m);
    }
  }

  /** The scanner's match is the only one the declarative description
      admits. */
  lemma FirstMatchIsOnly(p: Pattern, s: string)
    requires FirstMatch(p, s).Some?
    ensures forall m :: IsFirstMatch(p, s, m) ==> m == FirstMatch(p, s).value
  {
    forall m | IsFirstMatch(p, s, m)
      ensures m == FirstMatch(p, s).value
    {
      FirstMatchUnique(p, s, m, FirstMatch(p, s).value);
    }
  }

  /** A pattern can only match a string that contains its prefix. */
  lemma MatchNeedsPrefix(p: Pattern, s: string)
    requires !Occurs(s, Prefix(p))
    ensures forall i: nat, n: nat :: !MatchesWith(p, s, i, n)
  {
  }

  /** Whenever the lazy pattern matches, so does the greedy fallback, at the
      same start and with the same group length. */
  lemma LazyMatchImpliesGreedyMatch(s: string, i: nat, n: nat)
    requires MatchesWith(StockLazy, s, i, n)
    ensures MatchesWith(StockGreedy, s, i, n)
  {
  }
}
