/** divide_string, is_assignment and count_arguments: the small tokenising
    helpers of the shell's parser. */
module Helpers {
  import opened ShellBase
  import opened Text

  /** A piece of a divided token, left out when empty. */
  function Piece(t: string): seq<string> {
    if t == [] then [] else [t]
  }

  /** divide_string: cut a token around its first `>` into the text before it,
      the `>` itself and the text after it, leaving out empty outer parts. The
      caller's argument index grows by the number of pieces. */
  function Divide(s: string): (r: seq<string>)
    ensures 1 <= |r| <= 3
    ensures Flatten(r) == s
    ensures '>' !in s ==> r == [s]
    ensures s == ">" ==> r == [">"]
    ensures var k := IndexOf(s, '>');
      && (k == 0 && |s| > 1 ==> r == [">", s[1..]])
      && (k > 0 && k == |s| - 1 ==> r == [s[..k], ">"])
      && (0 < k < |s| - 1 ==> r == [s[..k], ">", s[k + 1..]])
    ensures s != [] ==> forall j :: 0 <= j < |r| ==> r[j] != []
  {
    var k := IndexOf(s, '>');
    if k < 0 then
      FlattenPiece(s);
      [s]
    else
      assert s == s[..k] + ">" + s[k + 1..];
      AroundGt(s[..k], s[k + 1..]);
      Piece(s[..k]) + [">"] + Piece(s[k + 1..])
  }

  lemma FlattenPiece(t: string)
    ensures Flatten(Piece(t)) == t
  {
    if t != [] {
      assert Flatten([t]) == t + Flatten([]);
    }
  }

  /** The pieces around a `>` join back to the text they came from. */
  lemma AroundGt(pre: string, post: string)
    ensures var r := Piece(pre) + [">"] + Piece(post);
      && 1 <= |r| <= 3 && Flatten(r) == pre + ">" + post
      && forall j :: 0 <= j < |r| ==> r[j] != []
  {
    FlattenAppend(Piece(pre) + [">"], Piece(post));
    FlattenAppend(Piece(pre), [">"]);
    FlattenPiece(pre);
    FlattenPiece(post);
    FlattenPiece(">");
  }

  /** is_assignment: after skipping the name's leading spaces, scan from the
      character after the name's first one up to and including the first
      character of the value; any space there means the line is not an
      assignment. `nameStart` and `valueStart` are the positions strtok
      returned for the name and the value, which an `=` separates. */
  method IsAssignment(s: string, nameStart: nat, valueStart: nat) returns (ok: bool)
    requires nameStart < valueStart < |s| && s[valueStart - 1] == '='
    ensures ok <==> forall i :: SkipSpaces(s, nameStart) < i <= valueStart ==> s[i] != ' '
  {
    var name := nameStart;
    while s[name] == ' '
      invariant nameStart <= name < valueStart
      invariant forall j :: nameStart <= j < name ==> s[j] == ' '
      decreases valueStart - name
    {
      name := name + 1;
    }
    assert name == SkipSpaces(s, nameStart);
    var i := name + 1;
    while i <= valueStart
      invariant name + 1 <= i <= valueStart + 1
      invariant forall j :: name < j < i ==> s[j] != ' '
    {
      if s[i] == ' ' {
        return false;
      }
      i := i + 1;
    }
    return true;
  }

  /** The extra words count_arguments credits for a `>` at `j`: two when neither
      neighbour is a space, one when exactly one is, none otherwise. The
      character past the end is the terminating NUL, not a space; the one
      before the start (which the C reads out of bounds) is taken as not a
      space either. */
  function GtWeight(str: string, j: nat): nat
    requires j < |str|
  {
    var prevSpace := j > 0 && str[j - 1] == ' ';
    var nextSpace := j + 1 < |str| && str[j + 1] == ' ';
    if !prevSpace && !nextSpace then 2
    else if !prevSpace || !nextSpace then 1
    else 0
  }

  /** Count of one character step: a space outside quotes, plus the `>` weight. */
  function StepCount(str: string, j: nat, inq: bool): nat
    requires j < |str|
  {
    (if str[j] != '"' && !inq && str[j] == ' ' then 1 else 0)
    + (if str[j] == '>' then GtWeight(str, j) else 0)
  }

  /** The inner loop of count_arguments from `j` on: what it adds and the quote
      state it leaves. */
  function ScanFrom(str: string, j: nat, inq: bool): (nat, bool)
    requires j <= |str|
    decreases |str| - j
  {
    if j == |str| then (0, inq)
    else
      var rest := ScanFrom(str, j + 1, Toggle(str[j], inq));
      (StepCount(str, j, inq) + rest.0, rest.1)
  }

  /** The last word of a string, counted when outside quotes and not ending in a space. */
  function LastWord(str: string, inq: bool): nat {
    if !inq && |str| > 0 && str[|str| - 1] != ' ' then 1 else 0
  }

  /** What count_arguments adds for the strings from `i` on, entering with quote state `inq`. */
  function CountFrom(arr: seq<string>, i: nat, inq: bool): nat
    requires i <= |arr|
    decreases |arr| - i
  {
    if i == |arr| then 0
    else
      var (c, q) := ScanFrom(arr[i], 0, inq);
      c + LastWord(arr[i], q) + CountFrom(arr, i + 1, q)
  }

  /** count_arguments: the quote state carries over from one string to the next. */
  function CountArgs(arr: seq<string>): nat {
    CountFrom(arr, 0, false)
  }

  method CountArguments(arr: seq<string>) returns (count: nat)
    ensures count == CountArgs(arr)
  {
    count := 0;
    var inq := false;
    var i := 0;
    while i < |arr|
      invariant 0 <= i <= |arr|
      invariant count + CountFrom(arr, i, inq) == CountArgs(arr)
    {
      var str := arr[i];
      ghost var inq0 := inq;
      ghost var count0 := count;
      var j := 0;
      while j < |str|
        invariant 0 <= j <= |str|
        invariant ScanFrom(str, j, inq).1 == ScanFrom(str, 0, inq0).1
        invariant count + ScanFrom(str, j, inq).0 == count0 + ScanFrom(str, 0, inq0).0
      {
        if str[j] == '"' {
          inq := !inq;
        } else if !inq && str[j] == ' ' {
          count := count + 1;
        }
        if str[j] == '>' {
          var prevSpace := j > 0 && str[j - 1] == ' ';
          var nextSpace := j + 1 < |str| && str[j + 1] == ' ';
          if !prevSpace && !nextSpace {
            count := count + 2;
          } else if !prevSpace || !nextSpace {
            count := count + 1;
          }
        }
        j := j + 1;
      }
      if !inq && |str| > 0 && str[|str| - 1] != ' ' {
        count := count + 1;
      }
      i := i + 1;
    }
  }

  /** On a string without quotes or `>`, the scan counts exactly its spaces. */
  lemma {:induction false} ScanCountsSpaces(str: string, j: nat)
    requires j <= |str| && '"' !in str && '>' !in str
    decreases |str| - j
    ensures ScanFrom(str, j, false) == (Count(str[j..], ' '), false)
  {
    if j < |str| {
      ScanCountsSpaces(str, j + 1);
      assert str[j..][1..] == str[j + 1..];
    }
  }

  lemma {:induction false} CountNone(s: string, c: char)
    requires c !in s
    ensures Count(s, c) == 0
  {
    if s != [] {
      CountNone(s[1..], c);
    }
  }

  /** On a single-spaced string, strtok's space tokens from a word start are
      the spaces that follow plus the last word when the string does not end
      in a space. */
  lemma {:induction false} TokensCountSpaces(str: string, j: nat)
    requires j < |str| && str[j] != ' ' && NoDoubleSpace(str)
    decreases |str| - j
    ensures |TokensFrom(str, ' ', j)| == Count(str[j..], ' ') + LastWord(str, false)
  {
    var b := TokenEnd(str, ' ', j);
    assert NextToken(str, ' ', j) == Some((j, b));
    TokensStep(str, ' ', j);
    var later := TokensFrom(str, ' ', Resume(str, b));
    assert |TokensFrom(str, ' ', j)| == 1 + |later|;
    WordHasNoSpace(str, j, b);
    var last := LastWord(str, false);
    if b == |str| {
      assert str[b - 1] != ' ';
      assert last == 1;
      assert later == [];
      assert Count(str[b..], ' ') == 0 by {
        assert str[b..] == [];
      }
    } else {
      var c := b + 1;
      assert Resume(str, b) == c;
      SpaceThenRest(str, b);
      if c == |str| {
        assert last == 0;
        assert later == [];
        assert Count(str[c..], ' ') == 0 by {
          assert str[c..] == [];
        }
      } else {
        assert str[c] != ' ' by {
          assert !(str[c - 1] == ' ' && str[c] == ' ');
        }
        TokensCountSpaces(str, c);
        assert |later| == Count(str[c..], ' ') + last;
      }
    }
  }

  /** A word adds no space to the count. */
  lemma WordHasNoSpace(str: string, j: nat, b: nat)
    requires j <= b <= |str| && forall k :: j <= k < b ==> str[k] != ' '
    ensures Count(str[j..], ' ') == Count(str[b..], ' ')
  {
    assert str[j..] == str[j..b] + str[b..];
    CountAppend(str[j..b], str[b..], ' ');
    CountNone(str[j..b], ' ');
  }

  /** A space followed by the rest. */
  lemma SpaceThenRest(str: string, b: nat)
    requires b < |str| && str[b] == ' '
    ensures Count(str[b..], ' ') == 1 + Count(str[b + 1..], ' ')
  {
    assert str[b..][1..] == str[b + 1..];
  }

  /** count_arguments agrees with the space tokeniser on a plain pipeline stage:
      no quotes, no `>`, no leading space and no two adjacent spaces. */
  lemma CountMatchesTokens(str: string)
    requires '"' !in str && '>' !in str && NoDoubleSpace(str)
    requires str == [] || str[0] != ' '
    ensures CountArgs([str]) == |Tokens(str, ' ')|
  {
    ScanCountsSpaces(str, 0);
    assert str[0..] == str;
    assert CountArgs([str]) == Count(str, ' ') + LastWord(str, false) + CountFrom([str], 1, false);
    if str != [] {
      TokensCountSpaces(str, 0);
    } else {
      assert Tokens(str, ' ') == [];
    }
  }

  /** The last `>` among the first `n` arguments, or 0 when there is none. */
  function LastGtBefore(args: seq<string>, n: nat): (k: nat)
    requires n <= |args|
    ensures k == 0 || (k < n && args[k] == ">")
    ensures forall j :: k < j < n ==> args[j] != ">"
  {
    if n == 0 then 0
    else if args[n - 1] == ">" then n - 1
    else LastGtBefore(args, n - 1)
  }

  /** The redirection index make_exec looks for: the last `>` that is not
      the final argument, 0 standing for "no redirection". */
  function RedirectIndex(args: seq<string>): nat {
    if |args| == 0 then 0 else LastGtBefore(args, |args| - 1)
  }

  /** The search loop at the top of make_exec. The C reads one slot past the
      closing NULL when there is no argument; that case yields 0 here. */
  method FindRedirect(args: seq<string>) returns (toFile: nat)
    ensures toFile == RedirectIndex(args)
    ensures toFile > 0 ==> toFile + 1 < |args| && args[toFile] == ">"
    ensures forall j :: toFile < j < |args| - 1 ==> args[j] != ">"
  {
    toFile := 0;
    if |args| == 0 {
      return;
    }
    var i := 0;
    while i + 1 < |args|
      invariant 0 <= i <= |args| - 1
      invariant toFile == LastGtBefore(args, i)
    {
      if args[i] == ">" {
        toFile := i;
      }
      i := i + 1;
    }
  }
}
