/** Character-sequence primitives the shell relies on: the C library's strchr and
    strtok, counting and filtering characters, and trimming blanks. */
module Text {
  import opened ShellBase

  /** `s` with every occurrence of `c` removed, other characters kept in order. */
  function Without(s: string, c: char): string {
    if s == [] then [] else (if s[0] == c then [] else [s[0]]) + Without(s[1..], c)
  }

  /** Number of occurrences of `c` in `s`. */
  function Count(s: string, c: char): nat {
    if s == [] then 0 else (if s[0] == c then 1 else 0) + Count(s[1..], c)
  }

  /** Concatenation of a sequence of strings. */
  function Flatten(ss: seq<string>): string {
    if ss == [] then [] else ss[0] + Flatten(ss[1..])
  }

  predicate StartsWith(s: string, p: string) {
    |p| <= |s| && s[..|p|] == p
  }

  /** The quote flag after reading `c`: a double quote flips it. */
  function Toggle(c: char, inq: bool): bool {
    if c == '"' then !inq else inq
  }

  /** No two adjacent spaces. */
  predicate NoDoubleSpace(t: string) {
    forall k :: 0 < k < |t| ==> !(t[k - 1] == ' ' && t[k] == ' ')
  }

  /** A character missing from a string is missing from its slices. */
  lemma NotInSlice(w: string, i: nat, j: nat, c: char)
    requires i <= j <= |w| && c !in w
    ensures c !in w[i..j]
  {
    forall t | 0 <= t < j - i ensures w[i..j][t] != c {
      assert w[i..j][t] == w[i + t];
    }
  }

  lemma ConcatAssoc<T>(a: seq<T>, b: seq<T>, c: seq<T>)
    ensures a + (b + c) == (a + b) + c
  {
  }

  lemma SliceJoin(s: string, a: nat, b: nat, c: nat)
    requires a <= b <= c <= |s|
    ensures s[a..c] == s[a..b] + s[b..c]
  {
  }

  lemma {:induction false} WithoutAppend(a: string, b: string, c: char)
    ensures Without(a + b, c) == Without(a, c) + Without(b, c)
  {
    if a == [] {
      assert a + b == b;
    } else {
      assert (a + b)[1..] == a[1..] + b;
      WithoutAppend(a[1..], b, c);
    }
  }

  lemma {:induction false} CountAppend(a: string, b: string, c: char)
    ensures Count(a + b, c) == Count(a, c) + Count(b, c)
  {
    if a == [] {
      assert a + b == b;
    } else {
      assert (a + b)[1..] == a[1..] + b;
      CountAppend(a[1..], b, c);
    }
  }

  lemma {:induction false} FlattenAppend(a: seq<string>, b: seq<string>)
    ensures Flatten(a + b) == Flatten(a) + Flatten(b)
  {
    if a == [] {
      assert a + b == b;
    } else {
      assert (a + b)[1..] == a[1..] + b;
      FlattenAppend(a[1..], b);
    }
  }

  /** `Without` removes nothing from a string that does not hold `c`, and
      everything from a string made only of `c`. */
  lemma {:induction false} WithoutNone(s: string, c: char)
    requires forall k :: 0 <= k < |s| ==> s[k] != c
    ensures Without(s, c) == s
  {
    if s != [] { WithoutNone(s[1..], c); }
  }

  lemma {:induction false} WithoutAll(s: string, c: char)
    requires forall k :: 0 <= k < |s| ==> s[k] == c
    ensures Without(s, c) == [] && Count(s, c) == |s|
  {
    if s != [] { WithoutAll(s[1..], c); }
  }

  /** Index of the first `c` in `s`, or -1 (the C library's strchr). */
  function IndexOf(s: string, c: char): (k: int)
    ensures -1 <= k < |s|
    ensures k == -1 <==> c !in s
    ensures k >= 0 ==> s[k] == c && c !in s[..k]
  {
    if s == [] then -1
    else if s[0] == c then 0
    else
      var k := IndexOf(s[1..], c);
      if k < 0 then -1 else k + 1
  }

  /** End of the token starting at `a`: the first `d` at or after `a`, or the end. */
  function TokenEnd(s: string, d: char, a: nat): (b: nat)
    requires a <= |s|
    decreases |s| - a
    ensures a <= b <= |s| && (b == |s| || s[b] == d)
    ensures forall k :: a <= k < b ==> s[k] != d
  {
    if a == |s| || s[a] == d then a else TokenEnd(s, d, a + 1)
  }

  /** One call of strtok with the single delimiter `d`, resuming at `pos`:
      skip delimiters, then return the bounds of the maximal run of
      non-delimiters, or None when only delimiters remain. */
  function NextToken(s: string, d: char, pos: nat): (r: Option<(nat, nat)>)
    requires pos <= |s|
    decreases |s| - pos
    ensures r.None? <==> forall k :: pos <= k < |s| ==> s[k] == d
    ensures r.Some? ==>
      && pos <= r.value.0 < r.value.1 <= |s|
      && (forall k :: pos <= k < r.value.0 ==> s[k] == d)
      && (forall k :: r.value.0 <= k < r.value.1 ==> s[k] != d)
      && (r.value.1 == |s| || s[r.value.1] == d)
  {
    if pos == |s| then None
    else if s[pos] == d then NextToken(s, d, pos + 1)
    else Some((pos, TokenEnd(s, d, pos)))
  }

  /** Where strtok resumes after a token ending at `b`: past the delimiter it overwrote. */
  function Resume(s: string, b: nat): nat
    requires b <= |s|
  {
    if b < |s| then b + 1 else b
  }

  /** Every token strtok yields from `pos` on, in order. */
  function TokensFrom(s: string, d: char, pos: nat): seq<string>
    requires pos <= |s|
    decreases |s| - pos
  {
    match NextToken(s, d, pos)
    case None => []
    case Some((a, b)) => [s[a..b]] + TokensFrom(s, d, Resume(s, b))
  }

  function Tokens(s: string, d: char): seq<string> {
    TokensFrom(s, d, 0)
  }

  /** Tokens are never empty and never hold the delimiter. */
  lemma {:induction false} TokensShape(s: string, d: char, pos: nat)
    requires pos <= |s|
    decreases |s| - pos
    ensures forall i :: 0 <= i < |TokensFrom(s, d, pos)| ==>
      |TokensFrom(s, d, pos)[i]| > 0 && d !in TokensFrom(s, d, pos)[i]
  {
    var t := NextToken(s, d, pos);
    if t.Some? {
      var b := t.value.1;
      assert pos < Resume(s, b) <= |s|;
      TokensShape(s, d, Resume(s, b));
      ShapeStep(s, d, pos);
    } else {
      assert TokensFrom(s, d, pos) == [];
    }
  }

  /** One more token keeps every token non-empty and free of the delimiter. */
  lemma ShapeStep(s: string, d: char, pos: nat)
    requires pos <= |s| && NextToken(s, d, pos).Some?
    requires var rest := TokensFrom(s, d, Resume(s, NextToken(s, d, pos).value.1));
      forall i :: 0 <= i < |rest| ==> |rest[i]| > 0 && d !in rest[i]
    ensures forall i :: 0 <= i < |TokensFrom(s, d, pos)| ==>
      |TokensFrom(s, d, pos)[i]| > 0 && d !in TokensFrom(s, d, pos)[i]
  {
    var (a, b) := NextToken(s, d, pos).value;
    TokensStep(s, d, pos);
    var rest := TokensFrom(s, d, Resume(s, b));
    var w := s[a..b];
    assert d !in w by {
      forall k | 0 <= k < |w| ensures w[k] != d {
        assert w[k] == s[a + k];
      }
    }
    var r := [w] + rest;
    forall i | 0 <= i < |r| ensures |r[i]| > 0 && d !in r[i] {
      if i > 0 {
        assert r[i] == rest[i - 1];
      }
    }
  }

  /** The characters strtok steps over to produce one token: delimiters,
      the token itself, and the delimiter after it. */
  lemma WithoutAroundToken(s: string, d: char, pos: nat, a: nat, b: nat)
    requires pos <= a <= b <= |s|
    requires forall k :: pos <= k < a ==> s[k] == d
    requires forall k :: a <= k < b ==> s[k] != d
    requires b == |s| || s[b] == d
    ensures Without(s[pos..], d) == s[a..b] + Without(s[Resume(s, b)..], d)
  {
    DropDelimiters(s, d, pos, a);
    KeepWord(s, d, a, b);
    DropDelimiters(s, d, b, Resume(s, b));
  }

  /** A run of delimiters vanishes. */
  lemma DropDelimiters(s: string, d: char, i: nat, j: nat)
    requires i <= j <= |s|
    requires forall k :: i <= k < j ==> s[k] == d
    ensures Without(s[i..], d) == Without(s[j..], d)
  {
    var lead := s[i..j];
    assert s[i..] == lead + s[j..];
    WithoutAppend(lead, s[j..], d);
    forall k | 0 <= k < |lead| ensures lead[k] == d {
      assert lead[k] == s[i + k];
    }
    WithoutAll(lead, d);
  }

  /** A run of non-delimiters is kept whole. */
  lemma KeepWord(s: string, d: char, i: nat, j: nat)
    requires i <= j <= |s|
    requires forall k :: i <= k < j ==> s[k] != d
    ensures Without(s[i..], d) == s[i..j] + Without(s[j..], d)
  {
    var word := s[i..j];
    assert s[i..] == word + s[j..];
    WithoutAppend(word, s[j..], d);
    forall k | 0 <= k < |word| ensures word[k] != d {
      assert word[k] == s[i + k];
    }
    WithoutNone(word, d);
  }

  /** strtok keeps every non-delimiter character: the tokens, concatenated,
      are the input with the delimiters removed. */
  lemma {:induction false} TokensKeepContent(s: string, d: char, pos: nat)
    requires pos <= |s|
    decreases |s| - pos
    ensures Flatten(TokensFrom(s, d, pos)) == Without(s[pos..], d)
  {
    var r := NextToken(s, d, pos);
    if r.None? {
      WithoutAll(s[pos..], d);
    } else {
      var a, b := r.value.0, r.value.1;
      var rest := TokensFrom(s, d, Resume(s, b));
      assert TokensFrom(s, d, pos) == [s[a..b]] + rest;
      TokensKeepContent(s, d, Resume(s, b));
      WithoutAroundToken(s, d, pos, a, b);
      assert Flatten([s[a..b]] + rest) == s[a..b] + Flatten(rest);
    }
  }

  /** Delimiters before position `b` are counted in the suffix from `pos`. */
  lemma CountSuffix(s: string, d: char, pos: nat, b: nat)
    requires pos <= b < |s| && s[b] == d
    ensures Count(s[pos..], d) >= Count(s[b + 1..], d) + 1
  {
    assert s[pos..] == s[pos..b] + ([s[b]] + s[b + 1..]);
    CountAppend(s[pos..b], [s[b]] + s[b + 1..], d);
    CountAppend([s[b]], s[b + 1..], d);
  }

  /** One strtok step: the token at `(a, b)` followed by the tokens after it. */
  lemma TokensStep(s: string, d: char, pos: nat)
    requires pos <= |s| && NextToken(s, d, pos).Some?
    ensures var (a, b) := NextToken(s, d, pos).value;
      TokensFrom(s, d, pos) == [s[a..b]] + TokensFrom(s, d, Resume(s, b))
  {
  }

  /** There is at most one token more than there are delimiters. */
  predicate Bounded(s: string, d: char, pos: nat)
    requires pos <= |s|
  {
    |TokensFrom(s, d, pos)| <= Count(s[pos..], d) + 1
  }

  lemma {:induction false} TokensBound(s: string, d: char, pos: nat)
    requires pos <= |s|
    decreases |s| - pos
    ensures Bounded(s, d, pos)
  {
    var r := NextToken(s, d, pos);
    if r.None? {
      NoToken(s, d, pos);
    } else if r.value.1 < |s| {
      var b := r.value.1;
      assert pos < b + 1 <= |s|;
      TokensBound(s, d, b + 1);
      BoundStep(s, d, pos, b);
    } else {
      LastToken(s, d, pos);
    }
  }

  /** Only delimiters left: no token. */
  lemma NoToken(s: string, d: char, pos: nat)
    requires pos <= |s| && NextToken(s, d, pos).None?
    ensures TokensFrom(s, d, pos) == [] && Bounded(s, d, pos)
  {
  }

  /** A token that ends at a delimiter: one more token, one more delimiter. */
  lemma BoundStep(s: string, d: char, pos: nat, b: nat)
    requires pos <= |s| && NextToken(s, d, pos).Some? && NextToken(s, d, pos).value.1 == b < |s|
    requires Bounded(s, d, b + 1)
    ensures Bounded(s, d, pos)
  {
    TokensStep(s, d, pos);
    assert Resume(s, b) == b + 1;
    CountSuffix(s, d, pos, b);
  }

  /** A token that runs to the end is the last one. */
  lemma LastToken(s: string, d: char, pos: nat)
    requires pos <= |s| && NextToken(s, d, pos).Some? && NextToken(s, d, pos).value.1 == |s|
    ensures |TokensFrom(s, d, pos)| == 1 && Bounded(s, d, pos)
  {
    TokensStep(s, d, pos);
    assert TokensFrom(s, d, |s|) == [];
  }

  /** First index at or after `pos` that is not a space, or the end. */
  function SkipSpaces(s: string, pos: nat): (k: nat)
    requires pos <= |s|
    decreases |s| - pos
    ensures pos <= k <= |s| && (k == |s| || s[k] != ' ')
    ensures forall j :: pos <= j < k ==> s[j] == ' '
  {
    if pos < |s| && s[pos] == ' ' then SkipSpaces(s, pos + 1) else pos
  }

  /** `t` without its leading spaces and tabs. */
  function TrimLeft(t: string): (r: string)
    ensures |r| <= |t| && r == t[|t| - |r|..]
    ensures r == [] || !IsBlank(r[0])
    ensures forall k :: 0 <= k < |t| - |r| ==> IsBlank(t[k])
  {
    if t != [] && IsBlank(t[0]) then TrimLeft(t[1..]) else t
  }

  /** `t` without its trailing spaces and tabs. */
  function TrimRight(t: string): (r: string)
    ensures |r| <= |t| && r == t[..|r|]
    ensures r == [] || !IsBlank(r[|r| - 1])
    ensures forall k :: |r| <= k < |t| ==> IsBlank(t[k])
  {
    if t != [] && IsBlank(t[|t| - 1]) then TrimRight(t[..|t| - 1]) else t
  }

  function Trim(t: string): string {
    TrimRight(TrimLeft(t))
  }
}
