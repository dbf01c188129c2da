/** deal_with_echo: how the shell cuts an `echo` command into words. A word
    opened by a double quote runs on, spaces included, until the quotes close;
    `$name` words are replaced by the variable's value; quotes are removed and
    a word holding `>` is divided around it. */
module Echo {
  import opened ShellBase
  import opened Text
  import opened Quotes
  import opened Helpers
  import opened EnvStore

  datatype EchoResult =
    | EchoOk(words: seq<string>)
    | EchoTooMany
    | EchoUnbalanced
  {
    /** The status deal_with_echo returns. */
    function Status(): Status {
      if EchoOk? then Success else InvalidInput
    }
  }

  /** The scan for the end of a word from `j`: stop at the end of the line or
      at a space outside quotes; every `"` flips the quote flag. Returns where
      it stopped and the quote flag there. */
  function ScanWord(s: string, j: nat, inq: bool): (r: (nat, bool))
    requires j <= |s|
    decreases |s| - j
    ensures j <= r.0 <= |s|
    ensures r.0 == |s| || (s[r.0] == ' ' && !r.1)
  {
    if j == |s| || (s[j] == ' ' && !inq) then (j, inq)
    else ScanWord(s, j + 1, Toggle(s[j], inq))
  }

  /** Whether a word names a shell variable: longer than one character,
      starting with `$`, and with neither a quote nor a space right after it. */
  predicate IsVariable(word: string) {
    |word| > 1 && word[0] == '$' && word[1] != '"' && word[1] != ' '
  }

  /** Where the variable name ends: at the word's first quote, or its end. */
  function NameEnd(word: string): (k: nat)
    ensures k <= |word| && '"' !in word[..k]
    ensures k < |word| ==> word[k] == '"'
  {
    var q := IndexOf(word, '"');
    if q >= 0 then q else |word|
  }

  /** A word after variable substitution: a known variable becomes its value
      followed by whatever came after the name; an unknown one becomes a
      single space. Other words are unchanged. */
  function Expand(word: string, vars: seq<EnvVar>): string {
    if IsVariable(word) then
      var k := NameEnd(word);
      match Lookup(vars, word[1..k])
      case Some(v) => v + word[k..]
      case None => " "
    else word
  }

  /** The arguments one scanned word contributes: substituted, quotes
      removed, divided around its first `>`. */
  function WordPieces(word: string, vars: seq<EnvVar>): seq<string> {
    Divide(Without(Expand(word, vars), '"'))
  }

  /** The word deal_with_echo finds from `pos`: skip spaces, step over an
      opening quote (setting the quote flag), then scan to the word's end.
      Returns the word's bounds and the quote flag where the scan stopped. */
  function WordAt(s: string, pos: nat): (r: (nat, nat, bool))
    requires pos <= |s|
    ensures pos <= r.0 <= r.1 <= |s|
    ensures r.1 == |s| || (s[r.1] == ' ' && !r.2)
    ensures pos < |s| && r.1 < |s| ==> pos < r.1
  {
    var st0 := SkipSpaces(s, pos);
    var openQuote := st0 < |s| && s[st0] == '"';
    var st := if openQuote then st0 + 1 else st0;
    var (en, inq) := ScanWord(s, st, openQuote);
    (st, en, inq)
  }

  /** The words collected once the word `s[st..en]` is handled: an empty word
      adds nothing. */
  function Collect(s: string, st: nat, en: nat, words: seq<string>, vars: seq<EnvVar>): seq<string>
    requires st <= en <= |s|
  {
    if en > st then words + WordPieces(s[st..en], vars) else words
  }

  /** deal_with_echo's outer loop from `pos`, where the previous word ended
      (outside quotes), with the words collected so far. */
  function EchoFrom(s: string, pos: nat, words: seq<string>, vars: seq<EnvVar>): EchoResult
    requires pos <= |s|
    decreases |s| - pos
  {
    if pos == |s| then EchoOk(words)
    else
      var (st, en, inq) := WordAt(s, pos);
      var more := Collect(s, st, en, words, vars);
      if en > st && |more| > MaxArgs then EchoTooMany
      else if en == |s| then (if inq then EchoUnbalanced else EchoOk(more))
      else EchoFrom(s, en, more, vars)
  }

  /** The words of an echo command line, the `echo` itself included. */
  function EchoWords(s: string, vars: seq<EnvVar>): EchoResult {
    EchoFrom(s, 0, [], vars)
  }

  /** The pointer walk of deal_with_echo that delimits one word. */
  method FindWord(s: string, pos: nat) returns (wordStart: nat, wordEnd: nat, inq: bool)
    requires pos <= |s|
    ensures (wordStart, wordEnd, inq) == WordAt(s, pos)
  {
    wordStart := pos;
    while wordStart < |s| && s[wordStart] == ' '
      invariant pos <= wordStart <= |s|
      invariant SkipSpaces(s, wordStart) == SkipSpaces(s, pos)
    {
      wordStart := wordStart + 1;
    }
    inq := false;
    if wordStart < |s| && s[wordStart] == '"' {
      inq := true;
      wordStart := wordStart + 1;
    }
    ghost var openQuote := inq;
    wordEnd := wordStart;
    while wordEnd < |s| && (s[wordEnd] != ' ' || inq)
      invariant wordStart <= wordEnd <= |s|
      invariant ScanWord(s, wordEnd, inq) == ScanWord(s, wordStart, openQuote)
    {
      if s[wordEnd] == '"' {
        inq := !inq;
      }
      wordEnd := wordEnd + 1;
    }
  }

  /** The treatment of one found word: substitute a variable (my_getenv),
      remove the quotes, and divide around a `>`. */
  method WordArguments(word: string, env: EnvTable) returns (pieces: seq<string>)
    requires env.Valid()
    ensures pieces == WordPieces(word, env.Entries())
  {
    var w := word;
    if |word| > 1 && word[0] == '$' && word[1] != '"' && word[1] != ' ' {
      var q := IndexOf(word, '"');
      var nameEnd := if q >= 0 then q else |word|;
      var value := env.Get(word[1..nameEnd]);
      if value.Some? {
        w := value.value + word[nameEnd..];
      } else {
        w := " ";
      }
    }
    w := RemoveQuotes(w);
    if IndexOf(w, '>') >= 0 {
      pieces := Divide(w);
    } else {
      pieces := [w];
    }
  }

  method DealWithEcho(s: string, env: EnvTable) returns (r: EchoResult)
    requires env.Valid()
    ensures r == EchoWords(s, env.Entries())
  {
    ghost var vars := env.Entries();
    var words: seq<string> := [];
    var pos := 0;
    var inq := false;
    while pos < |s|
      invariant pos <= |s|
      invariant pos < |s| ==> !inq && EchoWords(s, vars) == EchoFrom(s, pos, words, vars)
      invariant pos == |s| ==> EchoWords(s, vars) == if inq then EchoUnbalanced else EchoOk(words)
      decreases |s| - pos
    {
      var wordStart, wordEnd, q := FindWord(s, pos);
      inq := q;
      if wordEnd > wordStart {
        var pieces := WordArguments(s[wordStart..wordEnd], env);
        words := words + pieces;
        if |words| > MaxArgs {
          return EchoTooMany;
        }
      }
      pos := wordEnd;
    }
    if inq {
      return EchoUnbalanced;
    }
    return EchoOk(words);
  }

  predicate Odd(n: nat) {
    n % 2 == 1
  }

  /** The scan flips its quote flag once per quote it passes. */
  lemma {:induction false} ScanParity(s: string, j: nat, inq: bool)
    requires j <= |s|
    decreases |s| - j
    ensures ScanWord(s, j, inq).1 == (inq != Odd(Count(s[j..ScanWord(s, j, inq).0], '"')))
  {
    var en := ScanWord(s, j, inq).0;
    if j == |s| || (s[j] == ' ' && !inq) {
      assert s[j..en] == [];
    } else {
      ScanParity(s, j + 1, Toggle(s[j], inq));
      assert s[j..en] == [s[j]] + s[j + 1..en];
      CountAppend([s[j]], s[j + 1..en], '"');
    }
  }

  /** The quote flag at `k` of a scan that started at `j` with flag `inq`:
      flipped once per quote passed. */
  function FlagAt(s: string, j: nat, inq: bool, k: nat): bool
    requires j <= k <= |s|
  {
    inq != Odd(Count(s[j..k], '"'))
  }

  /** The scan stops at the FIRST position that is the end of the line or a
      space outside quotes, and its flag there is the quote parity. */
  lemma {:induction false} ScanStopsFirst(s: string, j: nat, inq: bool)
    requires j <= |s|
    decreases |s| - j
    ensures var r := ScanWord(s, j, inq);
      && (forall k :: j <= k < r.0 ==> !(s[k] == ' ' && !FlagAt(s, j, inq, k)))
      && r.1 == FlagAt(s, j, inq, r.0)
  {
    ScanParity(s, j, inq);
    var r := ScanWord(s, j, inq);
    if !(j == |s| || (s[j] == ' ' && !inq)) {
      var q := Toggle(s[j], inq);
      ScanStopsFirst(s, j + 1, q);
      forall k | j <= k < r.0 ensures !(s[k] == ' ' && !FlagAt(s, j, inq, k)) {
        if k == j {
          assert s[j..j] == [];
        } else {
          FlagShift(s, j, k, inq);
        }
      }
    }
  }

  /** Starting one character later with the flag that character leaves. */
  lemma FlagShift(s: string, j: nat, k: nat, inq: bool)
    requires j < k <= |s|
    ensures FlagAt(s, j + 1, Toggle(s[j], inq), k) == FlagAt(s, j, inq, k)
  {
    assert s[j..k] == [s[j]] + s[j + 1..k];
    CountAppend([s[j]], s[j + 1..k], '"');
  }

  /** The word found from `pos` starts after the spaces, and after an
      opening quote, which sets the flag; it ends at the first end of line or
      space outside quotes from there. */
  lemma WordAtShape(s: string, pos: nat)
    requires pos <= |s|
    ensures var (st, en, inq) := WordAt(s, pos);
      var st0 := SkipSpaces(s, pos);
      var open := st0 < |s| && s[st0] == '"';
      && st == (if open then st0 + 1 else st0)
      && (forall k :: st <= k < en ==> !(s[k] == ' ' && !FlagAt(s, st, open, k)))
      && inq == FlagAt(s, st, open, en)
  {
    var st0 := SkipSpaces(s, pos);
    var open := st0 < |s| && s[st0] == '"';
    var st := if open then st0 + 1 else st0;
    ScanStopsFirst(s, st, open);
  }

  /** The quote flag after finding a word from `pos` is the parity of the
      quotes between `pos` and the word's end. */
  lemma WordParity(s: string, pos: nat)
    requires pos <= |s|
    ensures var (st, en, inq) := WordAt(s, pos);
      inq <==> Odd(Count(s[pos..en], '"'))
  {
    var st0 := SkipSpaces(s, pos);
    var openQuote := st0 < |s| && s[st0] == '"';
    var st := if openQuote then st0 + 1 else st0;
    var scan := ScanWord(s, st, openQuote);
    var en := scan.0;
    assert WordAt(s, pos) == (st, en, scan.1);
    ScanParity(s, st, openQuote);
    CountThree(s, pos, st0, st, en);
    SpacesHoldNoQuote(s, pos, st0);
    var cw := Count(s[st..en], '"');
    if openQuote {
      assert s[st0..st] == ['"'];
      assert Count(s[pos..en], '"') == 1 + cw;
      assert Odd(1 + cw) == !Odd(cw);
    } else {
      assert s[st0..st] == [];
      assert Count(s[pos..en], '"') == cw;
    }
  }

  /** Counting over three adjacent slices. */
  lemma CountThree(s: string, a: nat, b: nat, c: nat, d: nat)
    requires a <= b <= c <= d <= |s|
    ensures Count(s[a..d], '"') == Count(s[a..b], '"') + Count(s[b..c], '"') + Count(s[c..d], '"')
  {
    SliceJoin(s, a, b, d);
    SliceJoin(s, b, c, d);
    CountAppend(s[a..b], s[b..d], '"');
    CountAppend(s[b..c], s[c..d], '"');
  }

  /** The spaces SkipSpaces steps over hold no quote. */
  lemma SpacesHoldNoQuote(s: string, pos: nat, st0: nat)
    requires pos <= st0 <= |s| && forall i :: pos <= i < st0 ==> s[i] == ' '
    ensures Count(s[pos..st0], '"') == 0
  {
    var lead := s[pos..st0];
    assert '"' !in lead by {
      forall k | 0 <= k < |lead| ensures lead[k] == ' ' {
        assert lead[k] == s[pos + k];
      }
    }
    CountNone(lead, '"');
  }

  /** One turn of deal_with_echo's outer loop: it stops on too many words,
      ends at the end of the line according to the quote flag, or goes on
      from the word's end outside quotes. */
  lemma EchoStep(s: string, pos: nat, words: seq<string>, vars: seq<EnvVar>)
    requires pos < |s|
    ensures var f := WordAt(s, pos);
      var r := EchoFrom(s, pos, words, vars);
      || r == EchoTooMany
      || (f.1 == |s| && (r == EchoUnbalanced <==> f.2))
      || (f.1 < |s| && !f.2 && r == EchoFrom(s, f.1, Collect(s, f.0, f.1, words, vars), vars))
  {
  }

  /** Unless the word limit cuts it short, deal_with_echo reports unbalanced
      quotes exactly when the command holds an odd number of quotes. */
  lemma {:induction false} EchoParity(s: string, pos: nat, words: seq<string>, vars: seq<EnvVar>)
    requires pos <= |s|
    decreases |s| - pos
    ensures EchoFrom(s, pos, words, vars) != EchoTooMany ==>
      (EchoFrom(s, pos, words, vars) == EchoUnbalanced <==> Odd(Count(s[pos..], '"')))
  {
    if pos < |s| {
      var found := WordAt(s, pos);
      var st, en, inq := found.0, found.1, found.2;
      EchoStep(s, pos, words, vars);
      WordParity(s, pos);
      if en == |s| {
        assert s[pos..en] == s[pos..];
      } else {
        EchoParity(s, en, Collect(s, st, en, words, vars), vars);
        ParitySplit(s, pos, en);
      }
    } else {
      assert s[pos..] == [];
    }
  }

  /** Quotes in an even-counted prefix do not change the parity. */
  lemma ParitySplit(s: string, pos: nat, en: nat)
    requires pos <= en <= |s| && !Odd(Count(s[pos..en], '"'))
    ensures Odd(Count(s[pos..], '"')) == Odd(Count(s[en..], '"'))
  {
    assert s[pos..] == s[pos..en] + s[en..];
    CountAppend(s[pos..en], s[en..], '"');
  }

  lemma UnbalancedQuotes(s: string, vars: seq<EnvVar>)
    ensures EchoWords(s, vars) == EchoUnbalanced ==> Odd(Count(s, '"'))
    ensures Odd(Count(s, '"')) ==> !EchoWords(s, vars).EchoOk?
    ensures !Odd(Count(s, '"')) ==> EchoWords(s, vars) != EchoUnbalanced
  {
    EchoParity(s, 0, [], vars);
    assert s[0..] == s;
  }

  /** A successful echo never yields more than MAX_ARGS words. */
  lemma {:induction false} EchoBound(s: string, pos: nat, words: seq<string>, vars: seq<EnvVar>)
    requires pos <= |s| && |words| <= MaxArgs
    decreases |s| - pos
    ensures EchoFrom(s, pos, words, vars).EchoOk? ==> |EchoFrom(s, pos, words, vars).words| <= MaxArgs
  {
    if pos < |s| {
      var (st, en, inq) := WordAt(s, pos);
      var more := if en > st then words + WordPieces(s[st..en], vars) else words;
      if en < |s| && !(en > st && |more| > MaxArgs) {
        EchoBound(s, en, more, vars);
      }
    }
  }

  /** The number of non-empty words deal_with_echo finds from `pos`. */
  function WordsIn(s: string, pos: nat): nat
    requires pos <= |s|
    decreases |s| - pos
  {
    if pos == |s| then 0
    else
      var (st, en, inq) := WordAt(s, pos);
      (if en > st then 1 else 0) + (if en == |s| then 0 else WordsIn(s, en))
  }

  /** Each non-empty word adds at least one argument, so a line with more
      words than there is room for reports too many words. */
  lemma {:induction false} TooManyWords(s: string, pos: nat, words: seq<string>, vars: seq<EnvVar>)
    requires pos <= |s| && |words| <= MaxArgs && |words| + WordsIn(s, pos) > MaxArgs
    decreases |s| - pos
    ensures EchoFrom(s, pos, words, vars) == EchoTooMany
  {
    var (st, en, inq) := WordAt(s, pos);
    var more := Collect(s, st, en, words, vars);
    assert en > st ==> |more| >= |words| + 1;
    if !(en > st && |more| > MaxArgs) {
      EchoStep(s, pos, words, vars);
      TooManyWords(s, en, more, vars);
    }
  }

  /** An echo line of more than MAX_ARGS words, `echo` included, is refused. */
  lemma EchoTooManyWords(s: string, vars: seq<EnvVar>)
    requires WordsIn(s, 0) > MaxArgs
    ensures EchoWords(s, vars) == EchoTooMany
  {
    TooManyWords(s, 0, [], vars);
  }

  /** Dividing keeps out any character other than `>` that the token lacks. */
  lemma DivideAvoids(w: string, c: char)
    requires c !in w && c != '>'
    ensures forall j :: 0 <= j < |Divide(w)| ==> c !in Divide(w)[j]
  {
    if '>' in w {
      var k := IndexOf(w, '>');
      NotInSlice(w, 0, k, c);
      NotInSlice(w, k + 1, |w|, c);
    }
  }

  /** No word deal_with_echo produces holds a quote. */
  lemma {:induction false} EchoNoQuotes(s: string, pos: nat, words: seq<string>, vars: seq<EnvVar>)
    requires pos <= |s|
    requires forall j :: 0 <= j < |words| ==> '"' !in words[j]
    decreases |s| - pos
    ensures var r := EchoFrom(s, pos, words, vars);
      r.EchoOk? ==> forall j :: 0 <= j < |r.words| ==> '"' !in r.words[j]
  {
    if pos < |s| {
      var (st, en, inq) := WordAt(s, pos);
      if en > st {
        var w := Without(Expand(s[st..en], vars), '"');
        WithoutFacts(Expand(s[st..en], vars), '"');
        DivideAvoids(w, '"');
      }
      var more := if en > st then words + WordPieces(s[st..en], vars) else words;
      if en < |s| {
        EchoNoQuotes(s, en, more, vars);
      }
    }
  }

  /** A `$name` word naming no variable becomes a single space. */
  lemma UnknownVariable(word: string, vars: seq<EnvVar>)
    requires IsVariable(word) && Lookup(vars, word[1..NameEnd(word)]).None?
    ensures WordPieces(word, vars) == [" "]
  {
    assert Without(" ", '"') == " ";
  }

  /** A `$name` word naming a variable becomes its value, with whatever
      followed the name, without quotes. */
  lemma KnownVariable(word: string, vars: seq<EnvVar>, v: string)
    requires IsVariable(word) && Lookup(vars, word[1..NameEnd(word)]) == Some(v)
    requires '>' !in v && '>' !in word
    ensures WordPieces(word, vars) == [Without(v + word[NameEnd(word)..], '"')]
  {
    var rest := word[NameEnd(word)..];
    var w := Without(v + rest, '"');
    NotInSlice(word, NameEnd(word), |word|, '>');
    WithoutAvoids(v + rest, '"', '>');
  }

  /** Filtering a character out adds no other character. */
  lemma {:induction false} WithoutAvoids(s: string, c: char, x: char)
    requires x !in s
    ensures x !in Without(s, c)
  {
    if s != [] {
      WithoutAvoids(s[1..], c, x);
    }
  }

  /** Inside quotes the scan runs over spaces up to the closing quote and
      stops just after it, outside quotes, at a space or the end. */
  lemma {:induction false} ScanInsideQuotes(s: string, j: nat, k: nat)
    requires j <= k < |s| && s[k] == '"' && (k + 1 == |s| || s[k + 1] == ' ')
    requires forall i :: j <= i < k ==> s[i] != '"'
    decreases k - j
    ensures ScanWord(s, j, true) == (k + 1, false)
  {
    if j < k {
      ScanInsideQuotes(s, j + 1, k);
    } else {
      assert ScanWord(s, k, true) == ScanWord(s, k + 1, false);
    }
  }

  /** A double-quoted span is one word, spaces included: the word runs from
      after the opening quote to the closing one, and once its quotes are
      removed it is the span's text, divided only around a `>`. */
  lemma QuotedSpan(s: string, pos: nat, k: nat, vars: seq<EnvVar>)
    requires pos < k < |s| && s[pos] == '"' && s[k] == '"' && '"' !in s[pos + 1..k]
    requires k + 1 == |s| || s[k + 1] == ' '
    ensures WordAt(s, pos) == (pos + 1, k + 1, false)
    ensures !IsVariable(s[pos + 1..k + 1]) ==> WordPieces(s[pos + 1..k + 1], vars) == Divide(s[pos + 1..k])
  {
    assert SkipSpaces(s, pos) == pos;
    forall i | pos < i < k ensures s[i] != '"' {
      assert s[i] == s[pos + 1..k][i - pos - 1];
    }
    ScanInsideQuotes(s, pos + 1, k);
    ClosingQuoteRemoved(s[pos + 1..k]);
    assert s[pos + 1..k + 1] == s[pos + 1..k] + ['"'];
  }

  lemma ClosingQuoteRemoved(body: string)
    requires '"' !in body
    ensures Without(body + ['"'], '"') == body
  {
    WithoutAppend(body, ['"'], '"');
    WithoutNone(body, '"');
    assert Without(['"'], '"') == [];
  }

  /** A word with no quote, no `>` and no variable is an argument as it is. */
  lemma PlainWord(w: string, vars: seq<EnvVar>)
    requires '"' !in w && '>' !in w && !IsVariable(w)
    ensures WordPieces(w, vars) == [w]
  {
    WithoutNone(w, '"');
  }

  /** A word found and handled before the end of the line: the loop goes on
      from its end. */
  lemma EchoContinues(s: string, pos: nat, words: seq<string>, vars: seq<EnvVar>, st: nat, en: nat, more: seq<string>)
    requires pos < |s| && WordAt(s, pos) == (st, en, false) && en < |s|
    requires Collect(s, st, en, words, vars) == more && |more| <= MaxArgs
    ensures EchoFrom(s, pos, words, vars) == EchoFrom(s, en, more, vars)
  {
  }

  /** The last word, ending the line outside quotes: the loop ends well. */
  lemma EchoEnds(s: string, pos: nat, words: seq<string>, vars: seq<EnvVar>, st: nat, more: seq<string>)
    requires pos < |s| && WordAt(s, pos) == (st, |s|, false)
    requires Collect(s, st, |s|, words, vars) == more && |more| <= MaxArgs
    ensures EchoFrom(s, pos, words, vars) == EchoOk(more)
  {
  }

  /** A run of characters that are neither spaces nor quotes, read outside
      quotes, is scanned to its end. */
  lemma {:induction false} PlainScan(s: string, j: nat, k: nat)
    requires j <= k <= |s| && (k == |s| || s[k] == ' ')
    requires forall i :: j <= i < k ==> s[i] != ' ' && s[i] != '"'
    decreases k - j
    ensures ScanWord(s, j, false) == (k, false)
  {
    if j < k {
      PlainScan(s, j + 1, k);
    }
  }

  /** A plain word `s[st..en]` after the spaces from `pos`. */
  lemma PlainWordAt(s: string, pos: nat, st: nat, en: nat)
    requires pos <= st < en <= |s| && (en == |s| || s[en] == ' ')
    requires forall i :: pos <= i < st ==> s[i] == ' '
    requires forall i :: st <= i < en ==> s[i] != ' ' && s[i] != '"'
    ensures WordAt(s, pos) == (st, en, false)
  {
    SkipTo(s, pos, st);
    PlainScan(s, st, en);
  }

  /** The spaces from `pos` run up to `st`. */
  lemma {:induction false} SkipTo(s: string, pos: nat, st: nat)
    requires pos <= st < |s| && s[st] != ' '
    requires forall i :: pos <= i < st ==> s[i] == ' '
    decreases st - pos
    ensures SkipSpaces(s, pos) == st
  {
    if pos < st {
      SkipTo(s, pos + 1, st);
    }
  }

  const QuotedLine: string := "echo \"a b\" c"

  lemma QuotedLineFirst(vars: seq<EnvVar>)
    ensures EchoFrom(QuotedLine, 0, [], vars) == EchoFrom(QuotedLine, 4, ["echo"], vars)
  {
    var s := QuotedLine;
    PlainWordAt(s, 0, 0, 4);
    assert s[0..4] == "echo";
    PlainWord("echo", vars);
    EchoContinues(s, 0, [], vars, 0, 4, ["echo"]);
  }

  lemma QuotedLineSecond(vars: seq<EnvVar>)
    ensures EchoFrom(QuotedLine, 4, ["echo"], vars) == EchoFrom(QuotedLine, 10, ["echo", "a b"], vars)
  {
    QuotedLineSpan();
    QuotedLineWord(vars);
    EchoContinues(QuotedLine, 4, ["echo"], vars, 6, 10, ["echo", "a b"]);
  }

  lemma QuotedLineSpan()
    ensures WordAt(QuotedLine, 4) == (6, 10, false)
  {
    var s := QuotedLine;
    assert s[6..9] == "a b";
    QuotedSpan(s, 5, 9, []);
    SpaceBeforeWord(s, 4);
  }

  lemma QuotedLineWord(vars: seq<EnvVar>)
    ensures Collect(QuotedLine, 6, 10, ["echo"], vars) == ["echo", "a b"]
  {
    assert QuotedLine[6..10] == "a b" + ['"'];
    ClosedWord("a b", vars);
  }

  /** A word closed by a quote, with no other quote, no `>` and no leading
      `$`, is an argument without its quote. */
  lemma ClosedWord(body: string, vars: seq<EnvVar>)
    requires '"' !in body && '>' !in body && (body == [] || body[0] != '$')
    ensures WordPieces(body + ['"'], vars) == [body]
  {
    var w := body + ['"'];
    assert !IsVariable(w) by {
      assert w[0] == '"' || w[0] == body[0];
    }
    ClosingQuoteRemoved(body);
  }

  /** A space before a word is skipped. */
  lemma SpaceBeforeWord(s: string, pos: nat)
    requires pos < |s| && s[pos] == ' '
    ensures WordAt(s, pos) == WordAt(s, pos + 1)
  {
  }

  lemma QuotedLineLast(vars: seq<EnvVar>)
    ensures EchoFrom(QuotedLine, 10, ["echo", "a b"], vars) == EchoOk(["echo", "a b", "c"])
  {
    var s := QuotedLine;
    PlainWordAt(s, 10, 11, 12);
    LastWordC(vars);
    EchoEnds(s, 10, ["echo", "a b"], vars, 11, ["echo", "a b", "c"]);
  }

  lemma LastWordC(vars: seq<EnvVar>)
    ensures Collect(QuotedLine, 11, 12, ["echo", "a b"], vars) == ["echo", "a b", "c"]
  {
    assert QuotedLine[11..12] == "c";
    PlainWord("c", vars);
  }


  /** `echo "a b" c`: the quoted span is one word without its quotes. */
  lemma QuotedEchoExample(vars: seq<EnvVar>)
    ensures EchoWords("echo \"a b\" c", vars) == EchoOk(["echo", "a b", "c"])
  {
    QuotedLineFirst(vars);
    QuotedLineSecond(vars);
    QuotedLineLast(vars);
  }

  const UnknownLine: string := "echo $X"

  lemma UnknownLineFirst()
    ensures EchoFrom(UnknownLine, 0, [], []) == EchoFrom(UnknownLine, 4, ["echo"], [])
  {
    var s := UnknownLine;
    PlainWordAt(s, 0, 0, 4);
    assert s[0..4] == "echo";
    PlainWord("echo", []);
    EchoContinues(s, 0, [], [], 0, 4, ["echo"]);
  }

  lemma UnknownLineLast()
    ensures EchoFrom(UnknownLine, 4, ["echo"], []) == EchoOk(["echo", " "])
  {
    var s := UnknownLine;
    PlainWordAt(s, 4, 5, 7);
    LastWordX();
    EchoEnds(s, 4, ["echo"], [], 5, ["echo", " "]);
  }

  lemma LastWordX()
    ensures Collect(UnknownLine, 5, 7, ["echo"], []) == ["echo", " "]
  {
    assert UnknownLine[5..7] == "$X";
    UnknownVariable("$X", []);
  }

  /** `echo $X` with no variable X: the word becomes a single space. */
  lemma UnknownEchoExample()
    ensures EchoWords("echo $X", []) == EchoOk(["echo", " "])
  {
    UnknownLineFirst();
    UnknownLineLast();
  }

}
