/** The two line splitters: the quote-aware `;` splitter of
    split_multiple_commands and the `|` splitter of execute_pipe_commands. */
module LineSplit {
  import opened ShellBase
  import opened Text

  // ---------------------------------------------------------------------------
  // Statements separated by `;`
  // ---------------------------------------------------------------------------

  /** The pieces between unquoted `;` from position `i` on, the current piece
      having started at `last`. Empty pieces are kept here. */
  function PiecesFrom(s: string, last: nat, i: nat, inq: bool): seq<string>
    requires last <= i <= |s|
    decreases |s| - i
  {
    if i == |s| then [s[last..]]
    else
      var q := Toggle(s[i], inq);
      if s[i] == ';' && !q then [s[last..i]] + PiecesFrom(s, i + 1, i + 1, q)
      else PiecesFrom(s, last, i + 1, q)
  }

  function Pieces(s: string): seq<string> {
    PiecesFrom(s, 0, 0, false)
  }

  /** The non-empty strings of `ps`, in order. */
  function NonEmpty(ps: seq<string>): (r: seq<string>)
    ensures forall j :: 0 <= j < |r| ==> r[j] != []
    ensures |r| <= |ps|
  {
    if ps == [] then []
    else (if ps[0] == [] then [] else [ps[0]]) + NonEmpty(ps[1..])
  }

  lemma {:induction false} NonEmptyAppend(a: seq<string>, b: seq<string>)
    ensures NonEmpty(a + b) == NonEmpty(a) + NonEmpty(b)
  {
    if a == [] {
      assert a + b == b;
    } else {
      assert (a + b)[1..] == a[1..] + b;
      NonEmptyAppend(a[1..], b);
    }
  }

  lemma NonEmptySnoc(d: seq<string>, x: string)
    ensures NonEmpty(d + [x]) == NonEmpty(d) + if x == [] then [] else [x]
  {
    NonEmptyAppend(d, [x]);
    assert [x][1..] == [];
  }

  /** The statements split_multiple_commands dispatches, in order: scanning the
      line once, a `"` flips the quote flag, an unquoted `;` ends a statement,
      the last character ends the last one, and empty statements are skipped. */
  method SplitStatements(line: string) returns (stmts: seq<string>)
    ensures stmts == NonEmpty(Pieces(line))
  {
    var len := |line|;
    var last := 0;
    var inq := false;
    ghost var done: seq<string> := [];
    stmts := [];
    var i := 0;
    while i < len
      invariant 0 <= last <= i <= len
      invariant Pieces(line) == done + PiecesFrom(line, last, i, inq)
      invariant i < len ==> stmts == NonEmpty(done)
      invariant i == len ==> stmts == NonEmpty(done + [line[last..]])
    {
      ghost var before := inq;
      if line[i] == '"' {
        inq := !inq;
      }
      // The C tests `last_pos < len` before taking the rest of the line at
      // the last character; that test fails only right after a separator.
      var sub: string := [];
      var isNew := false;
      if line[i] == ';' && !inq {
        SeparatorStep(line, done, last, i, before);
        sub := line[last..i];
        isNew := true;
        done := done + [sub];
        last := i + 1;
        if i == len - 1 {
          NonEmptySnoc(done, line[last..]);
        }
      } else {
        OrdinaryStep(line, done, last, i, before);
        if i == len - 1 {
          sub := line[last..];
          isNew := true;
          NonEmptySnoc(done, sub);
        }
      }
      if isNew && sub != [] {
        stmts := stmts + [sub];
      }
      i := i + 1;
    }
    if len == 0 {
      NonEmptySnoc([], line);
    }
  }

  /** An unquoted `;` at `i` closes the piece that started at `last`. */
  lemma SeparatorStep(s: string, done: seq<string>, last: nat, i: nat, inq: bool)
    requires last <= i < |s| && Pieces(s) == done + PiecesFrom(s, last, i, inq)
    requires s[i] == ';' && !Toggle(s[i], inq)
    ensures Pieces(s) == (done + [s[last..i]]) + PiecesFrom(s, i + 1, i + 1, Toggle(s[i], inq))
    ensures NonEmpty(done + [s[last..i]]) == NonEmpty(done) + if s[last..i] == [] then [] else [s[last..i]]
  {
    PiecesStep(s, last, i, inq);
    ConcatAssoc(done, [s[last..i]], PiecesFrom(s, i + 1, i + 1, Toggle(s[i], inq)));
    NonEmptySnoc(done, s[last..i]);
  }

  /** Any other character continues the current piece. */
  lemma OrdinaryStep(s: string, done: seq<string>, last: nat, i: nat, inq: bool)
    requires last <= i < |s| && Pieces(s) == done + PiecesFrom(s, last, i, inq)
    requires !(s[i] == ';' && !Toggle(s[i], inq))
    ensures Pieces(s) == done + PiecesFrom(s, last, i + 1, Toggle(s[i], inq))
  {
    PiecesStep(s, last, i, inq);
  }

  /** One character of the `;` scan. */
  lemma PiecesStep(s: string, last: nat, i: nat, inq: bool)
    requires last <= i < |s|
    ensures var q := Toggle(s[i], inq);
      PiecesFrom(s, last, i, inq) ==
        if s[i] == ';' && !q then [s[last..i]] + PiecesFrom(s, i + 1, i + 1, q)
        else PiecesFrom(s, last, i + 1, q)
  {
  }

  /** Joining pieces back with `;`. */
  function Join(ps: seq<string>): string
    requires ps != []
  {
    if |ps| == 1 then ps[0] else ps[0] + ";" + Join(ps[1..])
  }

  /** The `;` splitter loses nothing: the pieces joined with `;` are the line. */
  lemma {:induction false} JoinPiecesFrom(s: string, last: nat, i: nat, inq: bool)
    requires last <= i <= |s|
    decreases |s| - i
    ensures PiecesFrom(s, last, i, inq) != []
    ensures Join(PiecesFrom(s, last, i, inq)) == s[last..]
  {
    if i < |s| {
      var q := Toggle(s[i], inq);
      if s[i] == ';' && !q {
        JoinPiecesFrom(s, i + 1, i + 1, q);
        var rest := PiecesFrom(s, i + 1, i + 1, q);
        assert PiecesFrom(s, last, i, inq) == [s[last..i]] + rest;
        assert ([s[last..i]] + rest)[1..] == rest;
        assert s[last..] == s[last..i] + ";" + s[i + 1..];
      } else {
        JoinPiecesFrom(s, last, i + 1, q);
      }
    }
  }

  lemma JoinPieces(s: string)
    ensures Pieces(s) != [] && Join(Pieces(s)) == s
  {
    JoinPiecesFrom(s, 0, 0, false);
  }

  /** The quote flag before position `k`: an odd number of quotes precede it. */
  predicate QuotedAt(s: string, k: nat)
    requires k <= |s|
  {
    Count(s[..k], '"') % 2 == 1
  }

  /** A `;` at `k` separates statements exactly when it is outside quotes. */
  predicate SeparatorAt(s: string, k: nat)
    requires k < |s|
  {
    s[k] == ';' && !QuotedAt(s, k)
  }

  lemma QuotedStep(s: string, i: nat)
    requires i < |s|
    ensures QuotedAt(s, i + 1) == Toggle(s[i], QuotedAt(s, i))
  {
    assert s[..i + 1] == s[..i] + [s[i]];
    CountAppend(s[..i], [s[i]], '"');
  }

  /** A `;` inside double quotes does not separate: with no separator left,
      the rest of the line is one piece. */
  lemma {:induction false} QuotedSemicolonsStay(s: string, last: nat, i: nat)
    requires last <= i <= |s|
    requires forall k :: i <= k < |s| ==> !SeparatorAt(s, k)
    decreases |s| - i
    ensures PiecesFrom(s, last, i, QuotedAt(s, i)) == [s[last..]]
  {
    if i < |s| {
      QuotedStep(s, i);
      var q := Toggle(s[i], QuotedAt(s, i));
      assert !SeparatorAt(s, i);
      assert !(s[i] == ';' && !q);
      assert PiecesFrom(s, last, i, QuotedAt(s, i)) == PiecesFrom(s, last, i + 1, q);
      QuotedSemicolonsStay(s, last, i + 1);
    }
  }

  /** An unquoted `;` does separate: the line then has at least two pieces. */
  lemma {:induction false} SeparatorSplits(s: string, last: nat, i: nat, k: nat)
    requires last <= i <= k < |s| && SeparatorAt(s, k)
    decreases |s| - i
    ensures |PiecesFrom(s, last, i, QuotedAt(s, i))| >= 2
  {
    QuotedStep(s, i);
    var q := Toggle(s[i], QuotedAt(s, i));
    if s[i] == ';' && !q {
      JoinPiecesFrom(s, i + 1, i + 1, q);
    } else {
      SeparatorSplits(s, last, i + 1, k);
    }
  }

  lemma SemicolonSplitting(s: string)
    ensures (forall k :: 0 <= k < |s| ==> !SeparatorAt(s, k)) ==> Pieces(s) == [s]
    ensures (exists k :: 0 <= k < |s| && SeparatorAt(s, k)) ==> |Pieces(s)| >= 2
  {
    assert !QuotedAt(s, 0) by { assert s[..0] == []; }
    if forall k :: 0 <= k < |s| ==> !SeparatorAt(s, k) {
      QuotedSemicolonsStay(s, 0, 0);
    } else {
      var k :| 0 <= k < |s| && SeparatorAt(s, k);
      SeparatorSplits(s, 0, 0, k);
    }
  }

  /** The number of separating `;` at or after position `i`. */
  function SeparatorsFrom(s: string, i: nat): nat
    requires i <= |s|
    decreases |s| - i
  {
    if i == |s| then 0 else (if SeparatorAt(s, i) then 1 else 0) + SeparatorsFrom(s, i + 1)
  }

  predicate NoSeparatorIn(s: string, a: nat, b: nat)
    requires a <= b <= |s|
  {
    forall k :: a <= k < b ==> !SeparatorAt(s, k)
  }

  /** The piece `p` laid out at `start` holds no separator, and is followed
      by one when `more` pieces come after it. */
  predicate PieceAt(s: string, start: nat, p: string, more: bool) {
    && start + |p| <= |s|
    && NoSeparatorIn(s, start, start + |p|)
    && (more ==> start + |p| < |s| && SeparatorAt(s, start + |p|))
  }

  /** Laid out one after the other from position `start` of the line, each
      piece followed by one character, every piece is free of separators and
      every piece but the last is followed by one. */
  predicate CutExactly(s: string, start: nat, ps: seq<string>)
    decreases |ps|
  {
    ps != [] ==>
      && PieceAt(s, start, ps[0], |ps| > 1)
      && CutExactly(s, start + |ps[0]| + 1, ps[1..])
  }

  lemma {:induction false} CutsFrom(s: string, last: nat, i: nat)
    requires last <= i <= |s| && NoSeparatorIn(s, last, i)
    decreases |s| - i
    ensures var ps := PiecesFrom(s, last, i, QuotedAt(s, i));
      CutExactly(s, last, ps) && |ps| == 1 + SeparatorsFrom(s, i)
  {
    if i == |s| {
      var ps := [s[last..]];
      assert PieceAt(s, last, ps[0], false);
      assert CutExactly(s, last, ps) by {
        assert ps[1..] == [];
      }
    } else {
      QuotedStep(s, i);
      if SeparatorAt(s, i) {
        CutsFrom(s, i + 1, i + 1);
        var x := s[last..i];
        var rest := PiecesFrom(s, i + 1, i + 1, QuotedAt(s, i + 1));
        assert PieceAt(s, last, x, true);
        assert ([x] + rest)[1..] == rest;
      } else {
        assert NoSeparatorIn(s, last, i + 1);
        CutsFrom(s, last, i + 1);
      }
    }
  }

  /** The `;` splitter cuts exactly at the separators: there is one piece more
      than there are `;` outside quotes, each piece but the last is followed by
      such a `;` in the line, and no piece holds one (a quoted `;` stays
      inside its piece). */
  lemma PiecesAtSeparators(s: string)
    ensures CutExactly(s, 0, Pieces(s))
    ensures |Pieces(s)| == 1 + SeparatorsFrom(s, 0)
  {
    assert !QuotedAt(s, 0) by { assert s[..0] == []; }
    CutsFrom(s, 0, 0);
  }

  // ---------------------------------------------------------------------------
  // Pipeline stages separated by `|`
  // ---------------------------------------------------------------------------

  /** The trimmed, non-empty pieces of a list of strtok tokens. */
  function StagesOf(ts: seq<string>): (r: seq<string>)
    ensures |r| <= |ts|
    ensures forall j :: 0 <= j < |r| ==> Trimmed(r[j])
  {
    if ts == [] then []
    else
      var t := Trim(ts[0]);
      var rest := StagesOf(ts[1..]);
      if t == [] then rest
      else
        assert Trimmed(t);
        [t] + rest
  }

  /** A non-empty string with no blank at either end. */
  predicate Trimmed(x: string) {
    x != [] && !IsBlank(x[0]) && !IsBlank(x[|x| - 1])
  }

  /** The stages of a pipeline command: split on every `|` (quotes are not
      looked at), each trimmed of spaces and tabs, empty ones dropped. */
  function Stages(s: string): seq<string> {
    StagesOf(Tokens(s, '|'))
  }

  /** A pipeline runs in the background when its last stage ends in `&`. */
  predicate PipeBackground(stages: seq<string>) {
    |stages| > 0 && |stages[|stages| - 1]| > 0 && stages[|stages| - 1][|stages[|stages| - 1]| - 1] == '&'
  }

  lemma {:induction false} StagesOfAppend(a: seq<string>, b: seq<string>)
    ensures StagesOf(a + b) == StagesOf(a) + StagesOf(b)
  {
    if a == [] {
      assert a + b == b;
    } else {
      assert (a + b)[1..] == a[1..] + b;
      StagesOfAppend(a[1..], b);
    }
  }

  lemma {:induction false} TrimLeftAt(t: string, j: nat)
    requires j <= |t| && (forall k :: 0 <= k < j ==> IsBlank(t[k]))
    requires j == |t| || !IsBlank(t[j])
    ensures TrimLeft(t) == t[j..]
  {
    if j > 0 {
      assert t[1..][j - 1..] == t[j..];
      TrimLeftAt(t[1..], j - 1);
    }
  }

  lemma {:induction false} TrimRightAt(t: string, e: nat)
    requires e <= |t| && (forall k :: e <= k < |t| ==> IsBlank(t[k]))
    requires e == 0 || !IsBlank(t[e - 1])
    decreases |t|
    ensures TrimRight(t) == t[..e]
  {
    if e < |t| {
      var u := t[..|t| - 1];
      assert u[..e] == t[..e];
      TrimRightAt(u, e);
    }
  }

  /** The leading-blank loop of execute_pipe_commands: the index of the
      first character that is not a space or a tab. */
  method SkipBlanks(t: string) returns (j: nat)
    ensures j <= |t| && TrimLeft(t) == t[j..]
  {
    j := 0;
    while j < |t| && IsBlank(t[j])
      invariant j <= |t| && forall k :: 0 <= k < j ==> IsBlank(t[k])
    {
      j := j + 1;
    }
    TrimLeftAt(t, j);
  }

  /** The trailing-blank loop: walk back over blanks, never past `j`, whose
      character is not blank. */
  method CutBlanks(t: string, j: nat) returns (end: nat)
    requires j < |t| && !IsBlank(t[j])
    ensures j <= end < |t| && TrimRight(t[j..]) == t[j..end + 1]
  {
    end := |t| - 1;
    while end > j && IsBlank(t[end])
      invariant j <= end < |t| && forall k :: end < k < |t| ==> IsBlank(t[k])
    {
      end := end - 1;
    }
    TrimRightAt(t[j..], end + 1 - j);
    assert t[j..][..end + 1 - j] == t[j..end + 1];
  }

  /** The trimming of one strtok_r token in execute_pipe_commands: skip
      leading blanks; if anything is left, cut trailing blanks. */
  method TrimToken(t: string) returns (r: string)
    ensures r == Trim(t)
  {
    var j := SkipBlanks(t);
    if j == |t| {
      return [];
    }
    var end := CutBlanks(t, j);
    r := t[j..end + 1];
  }

  /** execute_pipe_commands' splitting: the stages, and whether the
      pipeline runs in the background because the last stage ends in `&`. */
  method SplitPipeline(command: string) returns (stages: seq<string>, background: bool)
    ensures stages == Stages(command)
    ensures background <==> PipeBackground(stages)
  {
    stages := CollectStages(command);
    background := |stages| > 0 && stages[|stages| - 1][|stages[|stages| - 1]| - 1] == '&';
  }

  /** The strtok_r loop on `|`: each token trimmed of blanks, and skipped
      when nothing is left. */
  method CollectStages(command: string) returns (stages: seq<string>)
    ensures stages == Stages(command)
  {
    stages := [];
    var pos := 0;
    while true
      invariant pos <= |command|
      invariant Stages(command) == stages + StagesOf(TokensFrom(command, '|', pos))
      decreases |command| - pos
    {
      var tok := NextToken(command, '|', pos);
      if tok.None? {
        NoToken(command, '|', pos);
        break;
      }
      var a, b := tok.value.0, tok.value.1;
      var next := Resume(command, b);
      var r := TrimToken(command[a..b]);
      StageGrow(command, pos, stages, a, b, next, r);
      if r != [] {
        stages := stages + [r];
      }
      pos := next;
    }
    assert stages + [] == stages;
  }

  /** One turn of the loop keeps the stages found so far, followed by those
      still to come, equal to all the stages. */
  lemma StageGrow(s: string, pos: nat, stages: seq<string>, a: nat, b: nat, c: nat, r: string)
    requires pos <= |s| && NextToken(s, '|', pos) == Some((a, b)) && c == Resume(s, b)
    requires Stages(s) == stages + StagesOf(TokensFrom(s, '|', pos))
    requires r == Trim(s[a..b])
    ensures Stages(s) == (if r != [] then stages + [r] else stages) + StagesOf(TokensFrom(s, '|', c))
  {
    StagesStep(s, pos, a, b, c);
    var later := StagesOf(TokensFrom(s, '|', c));
    if r != [] {
      ConcatAssoc(stages, [r], later);
    } else {
      assert [] + later == later;
    }
  }

  /** One `|` token: its trimmed text, when not empty, is the next stage. */
  lemma StagesStep(s: string, pos: nat, a: nat, b: nat, c: nat)
    requires pos <= |s| && NextToken(s, '|', pos) == Some((a, b)) && c == Resume(s, b)
    ensures var t := Trim(s[a..b]);
      StagesOf(TokensFrom(s, '|', pos)) ==
        (if t == [] then [] else [t]) + StagesOf(TokensFrom(s, '|', c))
  {
    var rest := TokensFrom(s, '|', Resume(s, b));
    TokensStep(s, '|', pos);
    StagesOfAppend([s[a..b]], rest);
    assert [s[a..b]][1..] == [];
  }

  /** There are never more stages than `|` characters plus one. */
  lemma StagesBound(s: string)
    ensures |Stages(s)| <= Count(s, '|') + 1
  {
    TokensBound(s, '|', 0);
    assert s[0..] == s;
  }

  /** Stages never hold a `|`. */
  lemma {:induction false} StagesOfNoBar(ts: seq<string>)
    requires forall i :: 0 <= i < |ts| ==> '|' !in ts[i]
    ensures forall j :: 0 <= j < |StagesOf(ts)| ==> '|' !in StagesOf(ts)[j]
  {
    if ts != [] {
      var rest := ts[1..];
      forall i | 0 <= i < |rest| ensures '|' !in rest[i] {
        assert rest[i] == ts[i + 1];
      }
      StagesOfNoBar(rest);
      var t := Trim(ts[0]);
      TrimAvoids(ts[0], '|');
      var later := StagesOf(rest);
      var r := StagesOf(ts);
      assert r == if t == [] then later else [t] + later;
      forall j | 0 <= j < |r| ensures '|' !in r[j] {
        if t != [] && j > 0 {
          assert r[j] == later[j - 1];
        }
      }
    }
  }

  /** Trimming adds no character. */
  lemma TrimAvoids(t: string, c: char)
    requires c !in t
    ensures c !in Trim(t)
  {
    var l := TrimLeft(t);
    NotInSlice(t, |t| - |l|, |t|, c);
    var r := TrimRight(l);
    NotInSlice(l, 0, |r|, c);
  }

  lemma StagesNoBar(s: string)
    ensures forall j :: 0 <= j < |Stages(s)| ==> '|' !in Stages(s)[j]
  {
    TokensShape(s, '|', 0);
    var ts := Tokens(s, '|');
    assert ts == TokensFrom(s, '|', 0);
    StagesOfNoBar(ts);
  }

  /** The characters that are neither blanks nor the given separator. */
  function Solid(x: string): string {
    Without(Without(x, ' '), '\t')
  }

  lemma SolidAppend(a: string, b: string)
    ensures Solid(a + b) == Solid(a) + Solid(b)
  {
    WithoutAppend(a, b, ' ');
    WithoutAppend(Without(a, ' '), Without(b, ' '), '\t');
  }

  lemma {:induction false} SolidOfBlanks(x: string)
    requires forall k :: 0 <= k < |x| ==> IsBlank(x[k])
    ensures Solid(x) == []
  {
    if x != [] {
      SolidOfBlanks(x[1..]);
      assert x == [x[0]] + x[1..];
      SolidAppend([x[0]], x[1..]);
      if x[0] == ' ' {
        assert Without([x[0]], ' ') == [];
      } else {
        assert Without([x[0]], ' ') == [x[0]];
        assert Without([x[0]], '\t') == [];
      }
    }
  }

  lemma TrimLeftKeepsSolid(t: string)
    ensures Solid(TrimLeft(t)) == Solid(t)
  {
    var l := TrimLeft(t);
    var k := |t| - |l|;
    assert t == t[..k] + l;
    SolidAppend(t[..k], l);
    SolidOfBlanks(t[..k]);
  }

  lemma TrimRightKeepsSolid(t: string)
    ensures Solid(TrimRight(t)) == Solid(t)
  {
    var r := TrimRight(t);
    assert t == r + t[|r|..];
    SolidAppend(r, t[|r|..]);
    SolidOfBlanks(t[|r|..]);
  }

  lemma TrimKeepsSolid(t: string)
    ensures Solid(Trim(t)) == Solid(t)
  {
    TrimLeftKeepsSolid(t);
    TrimRightKeepsSolid(TrimLeft(t));
  }

  lemma {:induction false} StagesOfKeepSolid(ts: seq<string>)
    ensures Solid(Flatten(StagesOf(ts))) == Solid(Flatten(ts))
  {
    if ts != [] {
      StagesOfKeepSolid(ts[1..]);
      var t := Trim(ts[0]);
      TrimKeepsSolid(ts[0]);
      SolidAppend(ts[0], Flatten(ts[1..]));
      var head := if t == [] then [] else [t];
      assert StagesOf(ts) == head + StagesOf(ts[1..]);
      FlattenAppend(head, StagesOf(ts[1..]));
      SolidAppend(Flatten(head), Flatten(StagesOf(ts[1..])));
      if t != [] {
        assert Flatten([t]) == t;
      }
    }
  }

  /** The `|` splitter keeps every character other than bars, spaces and
      tabs, in order (the blanks inside a stage are placed by StagesInPlace). */
  lemma StagesKeepContent(s: string)
    ensures Solid(Flatten(Stages(s))) == Solid(Without(s, '|'))
  {
    StagesOfKeepSolid(Tokens(s, '|'));
    TokensKeepContent(s, '|', 0);
    assert s[0..] == s;
  }

  /** Between `i` and `j` the command holds only bars and blanks. */
  predicate GapAt(s: string, i: nat, j: nat)
    requires i <= j <= |s|
  {
    forall k :: i <= k < j ==> s[k] == '|' || IsBlank(s[k])
  }

  /** The stages `ps` lie in `s` from `pos` on as contiguous pieces, in order:
      what comes before, between and after them is only bars and blanks, and
      each gap before a stage holds a bar when `bar` is set. */
  predicate Placed(s: string, pos: nat, ps: seq<string>, bar: bool)
    requires pos <= |s|
    decreases |ps|
  {
    if ps == [] then GapAt(s, pos, |s|)
    else
      exists a: nat :: pos <= a <= |s| - |ps[0]| && PlacedAt(s, pos, a, ps, bar)
  }

  /** The first stage of `ps` sits at `a`. */
  predicate PlacedAt(s: string, pos: nat, a: nat, ps: seq<string>, bar: bool)
    requires ps != [] && pos <= a <= |s| - |ps[0]|
    decreases |ps|, 0
  {
    && GapAt(s, pos, a)
    && (bar ==> '|' in s[pos..a])
    && s[a..a + |ps[0]|] == ps[0]
    && Placed(s, a + |ps[0]|, ps[1..], true)
  }

  /** A token that trims to nothing is all blanks. */
  lemma TrimEmpty(w: string)
    requires Trim(w) == []
    ensures forall k :: 0 <= k < |w| ==> IsBlank(w[k])
  {
    assert TrimLeft(w) == [];
  }

  /** `t` sits at `l` in `w`, with only blanks before and after it. */
  predicate TrimmedAt(w: string, l: nat, t: string) {
    && l + |t| <= |w|
    && w[l..l + |t|] == t
    && (forall k :: 0 <= k < l ==> IsBlank(w[k]))
    && (forall k :: l + |t| <= k < |w| ==> IsBlank(w[k]))
  }

  /** How many blanks lead the token. */
  function Lead(w: string): nat {
    |w| - |TrimLeft(w)|
  }

  /** The trimmed token sits after its leading blanks. */
  lemma TrimInside(w: string)
    ensures TrimmedAt(w, Lead(w), Trim(w))
  {
    BlanksAround(w, TrimLeft(w), TrimRight(TrimLeft(w)));
  }

  /** A suffix `left` after blanks, and a prefix `t` of it before blanks. */
  lemma BlanksAround(w: string, left: string, t: string)
    requires |left| <= |w| && left == w[|w| - |left|..]
    requires forall k :: 0 <= k < |w| - |left| ==> IsBlank(w[k])
    requires |t| <= |left| && t == left[..|t|]
    requires forall k :: |t| <= k < |left| ==> IsBlank(left[k])
    ensures TrimmedAt(w, |w| - |left|, t)
  {
    var l := |w| - |left|;
    assert w[l..l + |t|] == left[..|t|];
    forall k | l + |t| <= k < |w| ensures IsBlank(w[k]) {
      assert w[k] == left[k - l];
    }
  }

  /** A run of bars and blanks joined to the gap before it. */
  lemma GapJoin(s: string, i: nat, j: nat, k: nat)
    requires i <= j <= k <= |s| && GapAt(s, i, j) && GapAt(s, j, k)
    ensures GapAt(s, i, k)
  {
  }

  /** A bar at `b` lies in every gap around it. */
  lemma BarIn(s: string, i: nat, b: nat, j: nat)
    requires i <= b < j <= |s| && s[b] == '|'
    ensures '|' in s[i..j]
  {
    assert s[i..j][b - i] == s[b];
  }

  /** A bar in a gap is still in a longer gap. */
  lemma BarWiden(s: string, i: nat, j: nat, k: nat)
    requires i <= j <= k <= |s| && '|' in s[i..j]
    ensures '|' in s[i..k]
  {
    var m :| 0 <= m < j - i && s[i..j][m] == '|';
    assert s[i..k][m] == '|';
  }

  /** Blanks at `[i, j)` of the token `s[a..b]` form a gap of the command. */
  lemma BlankRun(s: string, a: nat, b: nat, i: nat, j: nat)
    requires a <= b <= |s| && i <= j <= b - a
    requires forall k :: i <= k < j ==> IsBlank(s[a..b][k])
    ensures GapAt(s, a + i, a + j)
  {
    forall k | a + i <= k < a + j ensures s[k] == '|' || IsBlank(s[k]) {
      assert s[k] == s[a..b][k - a];
    }
  }

  lemma SliceOfSlice(s: string, a: nat, b: nat, i: nat, j: nat)
    requires a <= b <= |s| && i <= j <= b - a
    ensures s[a..b][i..j] == s[a + i..a + j]
  {
    forall k | 0 <= k < j - i ensures s[a..b][i..j][k] == s[a + i..a + j][k] {
      assert s[a..b][i..j][k] == s[a..b][i + k] == s[a + i + k];
    }
  }

  /** A token `s[a..b]` holding `t` at `l` between blanks: `t` sits at
      `a + l` in the command, with gaps on either side. */
  lemma StageSpan(s: string, a: nat, b: nat, l: nat, t: string)
    requires a <= b <= |s| && TrimmedAt(s[a..b], l, t)
    ensures a + l + |t| <= b && s[a + l..a + l + |t|] == t
    ensures GapAt(s, a, a + l) && GapAt(s, a + l + |t|, b)
  {
    SliceOfSlice(s, a, b, l, l + |t|);
    BlankRun(s, a, b, 0, l);
    BlankRun(s, a, b, l + |t|, b - a);
  }

  /** The gap strtok crosses after a token ending at `b`, from `en` on. */
  lemma GapAfter(s: string, en: nat, b: nat)
    requires en <= b <= |s| && GapAt(s, en, b) && (b == |s| || s[b] == '|')
    ensures GapAt(s, en, Resume(s, b))
    ensures Resume(s, b) < |s| ==> '|' in s[en..Resume(s, b)]
  {
    if b < |s| {
      BarIn(s, en, b, b + 1);
    }
  }

  /** A token of blanks only: the gap from `g` runs on past it, and past the
      bar after it. */
  lemma BlankToken(s: string, g: nat, pos: nat, a: nat, b: nat, bar: bool)
    requires g <= pos <= a <= b <= |s| && GapAt(s, g, pos) && GapAt(s, pos, a)
    requires b == |s| || s[b] == '|'
    requires Trim(s[a..b]) == []
    ensures GapAt(s, g, Resume(s, b))
    ensures bar && Resume(s, b) < |s| ==> '|' in s[g..Resume(s, b)]
  {
    TrimEmpty(s[a..b]);
    BlankRun(s, a, b, 0, b - a);
    GapJoin(s, g, pos, a);
    GapJoin(s, g, a, b);
    GapAfter(s, b, b);
    GapJoin(s, g, b, Resume(s, b));
    if Resume(s, b) < |s| {
      BarIn(s, g, b, Resume(s, b));
    }
  }

  /** Where the stage of a token `s[a..b]` ends in the command. */
  function StageEnd(s: string, a: nat, b: nat): nat
    requires a <= b <= |s|
  {
    a + Lead(s[a..b]) + |Trim(s[a..b])|
  }

  /** After the stage of the token `s[a..b]`, strtok crosses blanks and one bar. */
  lemma AfterStage(s: string, a: nat, b: nat)
    requires a <= b <= |s| && (b == |s| || s[b] == '|')
    ensures StageEnd(s, a, b) <= b
    ensures GapAt(s, StageEnd(s, a, b), Resume(s, b))
    ensures Resume(s, b) < |s| ==> '|' in s[StageEnd(s, a, b)..Resume(s, b)]
  {
    TrimInside(s[a..b]);
    StageSpan(s, a, b, Lead(s[a..b]), Trim(s[a..b]));
    GapAfter(s, StageEnd(s, a, b), b);
  }

  /** The stage `t` of a token `s[a..b]`, at `l` in it between blanks,
      placed after the gap from `g`, in front of the stages placed after it. */
  lemma PlaceStage(s: string, g: nat, pos: nat, a: nat, b: nat, l: nat, t: string, rest: seq<string>, bar: bool)
    requires g <= pos <= a <= b <= |s| && GapAt(s, g, pos) && GapAt(s, pos, a)
    requires bar ==> '|' in s[g..pos]
    requires TrimmedAt(s[a..b], l, t)
    requires Placed(s, a + l + |t|, rest, true)
    ensures Placed(s, g, [t] + rest, bar)
  {
    StageSpan(s, a, b, l, t);
    PlaceAt(s, g, pos, a, a + l, t, rest, bar);
  }

  /** The stage of the token `s[a..b]` placed after the gap from `g`. */
  lemma StageBranch(s: string, g: nat, pos: nat, a: nat, b: nat, rest: seq<string>, bar: bool)
    requires g <= pos <= a < b <= |s| && GapAt(s, g, pos) && GapAt(s, pos, a)
    requires bar ==> '|' in s[g..pos]
    requires Placed(s, StageEnd(s, a, b), rest, true)
    ensures Placed(s, g, [Trim(s[a..b])] + rest, bar)
  {
    var w := s[a..b];
    var t, l := Trim(w), Lead(w);
    TrimInside(w);
    assert StageEnd(s, a, b) == a + l + |t|;
    PlaceStage(s, g, pos, a, b, l, t, rest, bar);
  }

  /** A stage `t` at `st` after a gap from `g`, in front of `rest`. */
  lemma PlaceAt(s: string, g: nat, pos: nat, a: nat, st: nat, t: string, rest: seq<string>, bar: bool)
    requires g <= pos <= a <= st && st + |t| <= |s|
    requires GapAt(s, g, pos) && GapAt(s, pos, a) && GapAt(s, a, st)
    requires bar ==> '|' in s[g..pos]
    requires s[st..st + |t|] == t
    requires Placed(s, st + |t|, rest, true)
    ensures Placed(s, g, [t] + rest, bar)
  {
    GapJoin(s, g, pos, a);
    GapJoin(s, g, a, st);
    if bar {
      BarWiden(s, g, pos, st);
    }
    var ps := [t] + rest;
    assert ps[0] == t && ps[1..] == rest;
    assert PlacedAt(s, g, st, ps, bar);
  }

  /** Stages from the strtok tokens resuming at `pos`, after a gap that began
      at `g`: placed from `g`, with a bar in each gap once `bar` is set. */
  lemma {:induction false} PlacedFrom(s: string, g: nat, pos: nat, bar: bool)
    requires g <= pos <= |s| && GapAt(s, g, pos)
    requires bar && pos < |s| ==> '|' in s[g..pos]
    decreases |s| - pos
    ensures Placed(s, g, StagesOf(TokensFrom(s, '|', pos)), bar)
  {
    var r := NextToken(s, '|', pos);
    if r.None? {
      assert TokensFrom(s, '|', pos) == [];
    } else {
      var (a, b) := r.value;
      TokensStep(s, '|', pos);
      var ts := TokensFrom(s, '|', pos);
      var next := Resume(s, b);
      assert ts[0] == s[a..b] && ts[1..] == TokensFrom(s, '|', next);
      assert GapAt(s, pos, a);
      if Trim(s[a..b]) == [] {
        BlankToken(s, g, pos, a, b, bar);
        PlacedFrom(s, g, next, bar);
      } else {
        AfterStage(s, a, b);
        PlacedFrom(s, StageEnd(s, a, b), next, true);
        StageBranch(s, g, pos, a, b, StagesOf(ts[1..]), bar);
        assert StagesOf(ts) == [Trim(s[a..b])] + StagesOf(ts[1..]);
      }
    }
  }

  /** The `|` splitter cuts the command into its stages in place: each stage
      is a contiguous piece of the command, blanks inside it included; the
      stages come in order; consecutive stages are separated by at least one
      bar; and what lies before, between and after them is only bars and
      blanks. */
  lemma StagesInPlace(s: string)
    ensures Placed(s, 0, Stages(s), false)
  {
    PlacedFrom(s, 0, 0, false);
  }
}
