/** remove_quotes and remove_spaces_and_quotes: the in-place string cleaners the
    shell applies to echo words and to both sides of an assignment. */
module Quotes {
  import opened Text

  /** Facts about filtering one character out. */
  lemma {:induction false} WithoutFacts(s: string, c: char)
    ensures c !in Without(s, c)
    ensures |Without(s, c)| == |s| - Count(s, c)
    ensures forall x :: x != c ==> Count(Without(s, c), x) == Count(s, x)
    ensures Without(s, c) == s <==> c !in s
  {
    if s != [] {
      WithoutFacts(s[1..], c);
      assert s == [s[0]] + s[1..];
      var w := Without(s[1..], c);
      if s[0] != c {
        assert Without(s, c) == [s[0]] + w;
        assert ([s[0]] + w)[1..] == w;
        forall x | x != c ensures Count(Without(s, c), x) == Count(s, x) {
          assert Count([s[0]] + w, x) == (if s[0] == x then 1 else 0) + Count(w, x);
        }
      } else {
        assert Without(s, c) == w;
        forall x | x != c ensures Count(Without(s, c), x) == Count(s, x) {
          assert Count(s, x) == Count(s[1..], x);
        }
      }
    }
  }

  /** Quote removal as remove_quotes does it: copy every character that is not
      a double quote into a scratch buffer, in order. */
  method RemoveQuotes(s: string) returns (r: string)
    ensures r == Without(s, '"')
    ensures '"' !in r && |r| <= |s|
    ensures forall x :: x != '"' ==> Count(r, x) == Count(s, x)
  {
    r := [];
    var i := 0;
    while i < |s|
      invariant 0 <= i <= |s|
      invariant r == Without(s[..i], '"')
    {
      assert s[..i + 1] == s[..i] + [s[i]];
      WithoutAppend(s[..i], [s[i]], '"');
      if s[i] != '"' {
        r := r + [s[i]];
      }
      i := i + 1;
    }
    assert s[..i] == s;
    WithoutFacts(s, '"');
  }

  /** Whether remove_spaces_and_quotes copies `s[k]`: it is not a quote, and it
      is not a space right after a space. The character "before" the first one
      is the first one itself. */
  predicate Kept(s: string, k: nat)
    requires k < |s|
  {
    var before := if k == 0 then s[0] else s[k - 1];
    (s[k] != ' ' || before != ' ') && s[k] != '"'
  }

  /** The scratch buffer of remove_spaces_and_quotes after its copying loop. */
  function Squeeze(s: string): string
    decreases |s|
  {
    if s == [] then []
    else Squeeze(s[..|s| - 1]) + (if Kept(s, |s| - 1) then [s[|s| - 1]] else [])
  }

  /** The final result: the copy with one trailing space dropped. */
  function SpacesAndQuotesRemoved(s: string): string {
    var t := Squeeze(s);
    if |t| > 0 && t[|t| - 1] == ' ' then t[..|t| - 1] else t
  }

  lemma SqueezeStep(s: string, i: nat)
    requires i < |s|
    ensures Squeeze(s[..i + 1]) == Squeeze(s[..i]) + (if Kept(s, i) then [s[i]] else [])
  {
    var p := s[..i + 1];
    assert p[..|p| - 1] == s[..i];
    assert Kept(p, i) == Kept(s, i);
  }

  method RemoveSpacesAndQuotes(s: string) returns (r: string)
    ensures r == SpacesAndQuotesRemoved(s)
    ensures '"' !in r && |r| <= |s|
  {
    var temp: string := [];
    var before := if |s| > 0 then s[0] else ' ';
    var i := 0;
    while i < |s|
      invariant 0 <= i <= |s|
      invariant temp == Squeeze(s[..i])
      invariant i > 0 ==> before == s[i - 1]
      invariant i == 0 && |s| > 0 ==> before == s[0]
    {
      SqueezeStep(s, i);
      if (s[i] != ' ' || before != ' ') && s[i] != '"' {
        temp := temp + [s[i]];
      }
      before := s[i];
      i := i + 1;
    }
    assert s[..i] == s;
    if |temp| > 0 && temp[|temp| - 1] == ' ' {
      temp := temp[..|temp| - 1];
    }
    r := temp;
    SqueezeFacts(s);
  }

  /** The copy never holds a quote and is never longer than the input. */
  lemma {:induction false} SqueezeFacts(s: string)
    decreases |s|
    ensures '"' !in Squeeze(s) && |Squeeze(s)| <= |s|
  {
    if s != [] {
      SqueezeFacts(s[..|s| - 1]);
    }
  }

  /** On quote-free input the copy starts with a non-space, has no two adjacent
      spaces, and ends with the input's last character when that is not a space. */
  lemma {:induction false} SqueezeShape(s: string)
    requires '"' !in s
    decreases |s|
    ensures var t := Squeeze(s);
      && (t == [] || t[0] != ' ')
      && NoDoubleSpace(t)
      && (s != [] && s[|s| - 1] != ' ' ==> t != [] && t[|t| - 1] == s[|s| - 1])
  {
    if s != [] {
      var k := |s| - 1;
      var p := s[..k];
      assert '"' !in p by {
        forall j | 0 <= j < |p| ensures p[j] != '"' { assert p[j] == s[j]; }
      }
      SqueezeShape(p);
      var u := Squeeze(p);
      assert Squeeze(s) == u + (if Kept(s, k) then [s[k]] else []);
      if Kept(s, k) && s[k] == ' ' {
        assert k > 0 && s[k - 1] != ' ';
        assert p[|p| - 1] == s[k - 1];
      }
    }
  }

  /** remove_spaces_and_quotes on quote-free input leaves no leading space, no
      trailing space and no two adjacent spaces. */
  lemma SpacesNormalised(s: string)
    requires '"' !in s
    ensures var r := SpacesAndQuotesRemoved(s);
      && '"' !in r
      && (r == [] || (r[0] != ' ' && r[|r| - 1] != ' '))
      && NoDoubleSpace(r)
  {
    SqueezeShape(s);
    SqueezeFacts(s);
    var t := Squeeze(s);
    var r := SpacesAndQuotesRemoved(s);
    if |t| > 0 && t[|t| - 1] == ' ' {
      assert r == t[..|t| - 1];
      if |r| > 0 {
        assert r[|r| - 1] == t[|t| - 2];
      }
    }
  }

  /** No space and no quote. */
  predicate Clean(s: string) {
    forall i :: 0 <= i < |s| ==> s[i] != ' ' && s[i] != '"'
  }

  /** A name or value with no space and no quote is copied unchanged. */
  lemma {:induction false} SqueezeClean(s: string)
    requires Clean(s)
    decreases |s|
    ensures Squeeze(s) == s
  {
    if s != [] {
      var k := |s| - 1;
      var p := s[..k];
      assert Clean(p);
      SqueezeClean(p);
      assert Kept(s, k);
      assert s == p + [s[k]];
    }
  }

  lemma CleanUnchanged(s: string)
    requires ' ' !in s && '"' !in s
    ensures SpacesAndQuotesRemoved(s) == s
  {
    assert Clean(s);
    SqueezeClean(s);
  }

  /** What is left once spaces and quotes are filtered out. */
  function Letters(s: string): string {
    Without(Without(s, ' '), '"')
  }

  lemma LettersAppend(a: string, b: string)
    ensures Letters(a + b) == Letters(a) + Letters(b)
  {
    WithoutAppend(a, b, ' ');
    WithoutAppend(Without(a, ' '), Without(b, ' '), '"');
  }

  /** remove_spaces_and_quotes drops only spaces and quotes: every other
      character survives, in order. */
  lemma {:induction false} SqueezeKeepsLetters(s: string)
    decreases |s|
    ensures Letters(Squeeze(s)) == Letters(s)
  {
    if s != [] {
      var k := |s| - 1;
      SqueezeKeepsLetters(s[..k]);
      assert s == s[..k] + [s[k]];
      LettersAppend(s[..k], [s[k]]);
      var tail := if Kept(s, k) then [s[k]] else [];
      LettersAppend(Squeeze(s[..k]), tail);
      if !Kept(s, k) {
        if s[k] == ' ' {
          assert Without([s[k]], ' ') == [];
        } else {
          assert Without([s[k]], ' ') == [s[k]];
          assert Without([s[k]], '"') == [];
        }
      }
    }
  }

  lemma SpacesAndQuotesRemovedKeepsLetters(s: string)
    ensures Letters(SpacesAndQuotesRemoved(s)) == Letters(s)
  {
    SqueezeKeepsLetters(s);
    var t := Squeeze(s);
    if |t| > 0 && t[|t| - 1] == ' ' {
      assert t == t[..|t| - 1] + [' '];
      LettersAppend(t[..|t| - 1], [' ']);
    }
  }
}
