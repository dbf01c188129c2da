/** split_single_command: one `;`-separated statement turned into an argument
    vector, a variable assignment, or an error; and the counter updates of
    split_single_command and execute_pipe_commands. */
module Parser {
  import opened ShellBase
  import opened Text
  import opened Quotes
  import opened Helpers
  import opened EnvStore
  import opened Echo
  import opened LineSplit

  // ---------------------------------------------------------------------------
  // Assignments: `name=value`
  // ---------------------------------------------------------------------------

  /** The statement is read as an assignment: it holds an `=` and does not
      start with `echo` (the strstr test compares the first match with the
      start of the line). */
  predicate IsAssignmentLine(command: string) {
    '=' in command && !StartsWith(command, "echo")
  }

  /** is_assignment's test: no space from just after the name's first
      non-space character up to the first character of the value. */
  predicate NoSpaceBetween(s: string, nameStart: nat, valueStart: nat)
    requires nameStart <= valueStart < |s|
  {
    forall i :: SkipSpaces(s, nameStart) < i <= valueStart ==> s[i] != ' '
  }

  /** The assignment branch of split_single_command, on the table's entries:
      the status it returns and the entries afterwards. The name is the first
      `=`-token, the value the second. */
  function AssignLine(command: string, vars: seq<EnvVar>): (r: (Status, seq<EnvVar>))
    ensures r.0 == InvalidInput || (r.0 == SystemFailure && r.1 == vars)
  {
    match NextToken(command, '=', 0)
    case None => (InvalidInput, vars)
    case Some((a0, b0)) =>
      match NextToken(command, '=', Resume(command, b0))
      case None => (InvalidInput, vars)
      case Some((a1, b1)) =>
        if !NoSpaceBetween(command, a0, a1) || '>' in command[a1..b1] then (InvalidInput, vars)
        else
          match Assign(vars, SpacesAndQuotesRemoved(command[a0..b0]), SpacesAndQuotesRemoved(command[a1..b1]))
          case None => (SystemFailure, vars)
          case Some(w) => (InvalidInput, w)
  }

  /** A plain `name=value` statement stores the value under the name: the
      name is the text before the `=`, the value the text after it, and a
      later lookup of the name gives the value. A full table refuses a new
      name with SYSTEM_FAILURES. */
  lemma AssignLineStores(n: string, v: string, vars: seq<EnvVar>)
    requires n != [] && '=' !in n && ' ' !in n && '"' !in n
    requires v != [] && '=' !in v && ' ' !in v && '"' !in v && '>' !in v
    requires !StartsWith(n + "=" + v, "echo")
    ensures IsAssignmentLine(n + "=" + v)
    ensures var r := AssignLine(n + "=" + v, vars);
      && (Assign(vars, n, v).Some? ==> r == (InvalidInput, Assign(vars, n, v).value) && Lookup(r.1, n) == Some(v))
      && (Assign(vars, n, v).None? ==> r == (SystemFailure, vars))
  {
    AssignPieces(n, v);
    CleanUnchanged(n);
    CleanUnchanged(v);
    if Assign(vars, n, v).Some? {
      AssignThenLookup(vars, n, v);
    }
  }

  /** The two `=`-tokens of `name=value` are the name and the value, and no
      space lies between them. */
  lemma AssignPieces(n: string, v: string)
    requires n != [] && '=' !in n && ' ' !in n
    requires v != [] && '=' !in v && ' ' !in v
    ensures var c := n + "=" + v;
      var e: nat := |n|;
      && NextToken(c, '=', 0) == Some((0, e)) && Resume(c, e) == e + 1
      && NextToken(c, '=', e + 1) == Some((e + 1, |c|))
      && c[0..e] == n && c[e + 1..|c|] == v
      && NoSpaceBetween(c, 0, e + 1)
  {
    var c := n + "=" + v;
    var e: nat := |n|;
    assert c[e] == '=';
    assert forall k :: 0 <= k < e ==> c[k] == n[k];
    assert forall k :: e < k < |c| ==> c[k] == v[k - e - 1];
    assert c[0] != '=' && TokenEnd(c, '=', 0) == e;
    assert c[e + 1] != '=' && TokenEnd(c, '=', e + 1) == |c|;
    assert SkipSpaces(c, 0) == 0;
  }

  // ---------------------------------------------------------------------------
  // The argument loop
  // ---------------------------------------------------------------------------

  datatype Collection = Collected(args: seq<string>) | Rejected

  /** Whether the argument loop stops for too many arguments. As written the
      loop tests `args_index == MAX_ARGS`; the corrected test is `>=`. */
  predicate Full(count: nat, asWritten: bool) {
    if asWritten then count == MaxArgs else count >= MaxArgs
  }

  /** The value a token stands for: `$name` is the variable's value (None
      when it is not set), any other token itself. */
  function Substitute(t: string, vars: seq<EnvVar>): Option<string> {
    if |t| > 0 && t[0] == '$' then Lookup(vars, t[1..]) else Some(t)
  }

  /** split_single_command's loop over the space tokens `ts`, with the
      arguments collected so far: stop when full, reject an unset variable or
      `cd`, skip a lone space, and divide every other token around `>`. */
  function ArgsFrom(ts: seq<string>, args: seq<string>, vars: seq<EnvVar>, asWritten: bool): Collection
    decreases |ts|
  {
    if ts == [] then Collected(args)
    else if Full(|args|, asWritten) then Rejected
    else
      match Substitute(ts[0], vars)
      case None => Rejected
      case Some(u) =>
        if u == "cd" then Rejected
        else ArgsFrom(ts[1..], Grow(args, u), vars, asWritten)
  }

  /** The arguments after taking the value `u`: a lone space adds nothing,
      anything else is divided around its `>`. */
  function Grow(args: seq<string>, u: string): seq<string> {
    if u != " " then args + Divide(u) else args
  }

  /** Growing adds the value's text and nothing else. */
  lemma GrowText(args: seq<string>, u: string)
    ensures Flatten(Grow(args, u)) == Flatten(args) + (if u != " " then u else [])
  {
    if u != " " {
      FlattenAppend(args, Divide(u));
    } else {
      assert Flatten(args) + [] == Flatten(args);
    }
  }

  /** With the corrected test no run of the loop leaves more than
      MAX_ARGS + 2 arguments, so the closing NULL fits the MAX_ARGS + 3 slots. */
  lemma {:induction false} ArgsBound(ts: seq<string>, args: seq<string>, vars: seq<EnvVar>)
    requires |args| <= MaxArgs + 2
    decreases |ts|
    ensures ArgsFrom(ts, args, vars, false).Collected? ==> |ArgsFrom(ts, args, vars, false).args| <= MaxArgs + 2
  {
    if ts != [] && !Full(|args|, false) {
      match Substitute(ts[0], vars)
      case None =>
      case Some(u) =>
        if u != "cd" {
          ArgsBound(ts[1..], Grow(args, u), vars);
        }
    }
  }

  /** A `cd` token anywhere makes the loop reject the statement. */
  lemma {:induction false} CdRejected(ts: seq<string>, args: seq<string>, vars: seq<EnvVar>, asWritten: bool)
    requires "cd" in ts
    decreases |ts|
    ensures ArgsFrom(ts, args, vars, asWritten) == Rejected
  {
    if !Full(|args|, asWritten) {
      match Substitute(ts[0], vars)
      case None =>
      case Some(u) =>
        if u != "cd" {
          assert ts[0] != "cd";
          assert "cd" in ts[1..] by {
            var k :| 0 <= k < |ts| && ts[k] == "cd";
            assert ts[1..][k - 1] == "cd";
          }
          CdRejected(ts[1..], Grow(args, u), vars, asWritten);
        }
    }
  }

  /** A `$name` token naming no variable anywhere makes the loop reject the
      statement. */
  lemma {:induction false} UnsetRejected(ts: seq<string>, args: seq<string>, vars: seq<EnvVar>, asWritten: bool, k: nat)
    requires k < |ts| && Substitute(ts[k], vars).None?
    decreases |ts|
    ensures ArgsFrom(ts, args, vars, asWritten) == Rejected
  {
    if !Full(|args|, asWritten) && k > 0 {
      match Substitute(ts[0], vars)
      case None =>
      case Some(u) =>
        if u != "cd" {
          assert ts[1..][k - 1] == ts[k];
          UnsetRejected(ts[1..], Grow(args, u), vars, asWritten, k - 1);
        }
    }
  }

  /** The text the tokens stand for once variables are substituted, lone
      spaces left out. */
  function Substituted(ts: seq<string>, vars: seq<EnvVar>): string {
    if ts == [] then []
    else
      (match Substitute(ts[0], vars)
       case Some(u) => if u != " " then u else []
       case None => [])
      + Substituted(ts[1..], vars)
  }

  /** One turn of the loop that goes on: the value of the first token is
      taken and the rest of the tokens follow. */
  lemma ArgsStep(ts: seq<string>, args: seq<string>, vars: seq<EnvVar>, asWritten: bool)
    requires ts != [] && ArgsFrom(ts, args, vars, asWritten).Collected?
    ensures Substitute(ts[0], vars).Some?
    ensures var u := Substitute(ts[0], vars).value;
      && ArgsFrom(ts, args, vars, asWritten) == ArgsFrom(ts[1..], Grow(args, u), vars, asWritten)
      && Substituted(ts, vars) == (if u != " " then u else []) + Substituted(ts[1..], vars)
  {
  }

  /** The loop loses and invents no text: the collected arguments, joined,
      are the arguments before it followed by the substituted tokens. */
  lemma {:induction false} ArgsKeepText(ts: seq<string>, args: seq<string>, vars: seq<EnvVar>, asWritten: bool)
    requires ArgsFrom(ts, args, vars, asWritten).Collected?
    decreases |ts|
    ensures Flatten(ArgsFrom(ts, args, vars, asWritten).args) == Flatten(args) + Substituted(ts, vars)
  {
    if ts != [] {
      ArgsStep(ts, args, vars, asWritten);
      var u := Substitute(ts[0], vars).value;
      var more := Grow(args, u);
      ArgsKeepText(ts[1..], more, vars, asWritten);
      GrowText(args, u);
      ConcatAssoc(Flatten(args), if u != " " then u else [], Substituted(ts[1..], vars));
    } else {
      assert Flatten(args) + [] == Flatten(args);
    }
  }

  /** A token the loop takes as at least one argument: it stands for a
      value, which is neither a lone space nor `cd`. */
  predicate Taken(t: string, vars: seq<EnvVar>) {
    Substitute(t, vars).Some? && Substitute(t, vars).value != " " && Substitute(t, vars).value != "cd"
  }

  /** Each taken token adds at least one argument, so once `k` taken tokens
      would bring the count past MAX_ARGS the loop refuses the statement. */
  lemma {:induction false} TooManyFrom(ts: seq<string>, args: seq<string>, vars: seq<EnvVar>, k: nat)
    requires 1 <= k <= |ts| && |args| + k > MaxArgs
    requires forall i :: 0 <= i < k ==> Taken(ts[i], vars)
    decreases k
    ensures ArgsFrom(ts, args, vars, false) == Rejected
  {
    if !Full(|args|, false) {
      assert Taken(ts[0], vars);
      var u := Substitute(ts[0], vars).value;
      forall i | 0 <= i < k - 1 ensures Taken(ts[1..][i], vars) {
        assert ts[1..][i] == ts[i + 1];
      }
      TooManyFrom(ts[1..], Grow(args, u), vars, k - 1);
    }
  }

  /** A statement whose first MAX_ARGS + 1 tokens are all taken as arguments
      is refused as having too many. */
  lemma TooManyRejected(ts: seq<string>, vars: seq<EnvVar>)
    requires |ts| > MaxArgs && forall i :: 0 <= i <= MaxArgs ==> Taken(ts[i], vars)
    ensures ArgsFrom(ts, [], vars, false) == Rejected
  {
    TooManyFrom(ts, [], vars, MaxArgs + 1);
  }

  /** The token list of `a b c d e f g h i>j k`. */
  const InBoundsTokens: seq<string> := ["a", "b", "c", "d", "e", "f", "g", "h", "i>j", "k"]

  /** The arguments the eight one-letter tokens leave. */
  const Eight: seq<string> := ["a", "b", "c", "d", "e", "f", "g", "h"]

  /** As written, `i>j` takes the index from 8 to 11, past the `== MAX_ARGS`
      test, and `k` is stored at index 11: twelve arguments, whose NULL still
      fits. The corrected test refuses the statement at `k`. */
  lemma CorrectedRefusesInBounds(vars: seq<EnvVar>)
    ensures ArgsFrom(InBoundsTokens, [], vars, true) == Collected(Eight + ["i", ">", "j", "k"])
    ensures |Eight + ["i", ">", "j", "k"]| == MaxArgs + 2
    ensures ArgsFrom(InBoundsTokens, [], vars, false) == Rejected
  {
    PlainTokens(InBoundsTokens, 8, vars, true);
    PlainTokens(InBoundsTokens, 8, vars, false);
    assert InBoundsTokens[..8] == Eight;
    InBoundsTail(vars, true);
    InBoundsTail(vars, false);
  }

  lemma InBoundsTail(vars: seq<EnvVar>, asWritten: bool)
    ensures ArgsFrom(InBoundsTokens[8..], Eight, vars, asWritten) ==
      if asWritten then Collected(Eight + ["i", ">", "j", "k"]) else Rejected
  {
    var ts := InBoundsTokens[8..];
    assert ts == ["i>j", "k"];
    var s := "i>j";
    assert IndexOf(s, '>') == 1;
    assert s[..1] == "i" && s[2..] == "j";
    var eleven := Eight + ["i", ">", "j"];
    assert Grow(Eight, "i>j") == eleven;
    assert ArgsFrom(ts, Eight, vars, asWritten) == ArgsFrom(["k"], eleven, vars, asWritten);
    if asWritten {
      assert Grow(eleven, "k") == eleven + ["k"];
      assert ArgsFrom(["k"], eleven, vars, true) == ArgsFrom([], eleven + ["k"], vars, true);
    }
  }

  /** The token list of `a b c d e f g h i j>k l`. */
  const OverflowTokens: seq<string> := ["a", "b", "c", "d", "e", "f", "g", "h", "i", "j>k", "l"]

  /** The arguments the nine one-letter tokens leave. */
  const Nine: seq<string> := ["a", "b", "c", "d", "e", "f", "g", "h", "i"]

  /** As written, nine plain tokens bring the index to 9 and `j>k` takes it
      to 12, past the `== MAX_ARGS` test; `l` is then stored at index 12 and
      the closing NULL at index 13, one past the MAX_ARGS + 3 slots. */
  lemma GuardSkipped(vars: seq<EnvVar>)
    ensures ArgsFrom(OverflowTokens, [], vars, true).Collected?
    ensures |ArgsFrom(OverflowTokens, [], vars, true).args| == MaxArgs + 3
  {
    PlainTokens(OverflowTokens, 9, vars, true);
    assert OverflowTokens[..9] == Nine;
    OverflowTail(vars, true);
  }

  /** With the corrected test the same tokens are refused. */
  lemma GuardHolds(vars: seq<EnvVar>)
    ensures ArgsFrom(OverflowTokens, [], vars, false) == Rejected
  {
    PlainTokens(OverflowTokens, 9, vars, false);
    assert OverflowTokens[..9] == Nine;
    OverflowTail(vars, false);
  }

  /** The last two tokens, after the nine plain ones: `j>k` adds three
      arguments; as written `l` is then taken, corrected the loop stops. */
  lemma OverflowTail(vars: seq<EnvVar>, asWritten: bool)
    ensures ArgsFrom(OverflowTokens[9..], Nine, vars, asWritten) ==
      if asWritten then Collected(Nine + ["j", ">", "k", "l"]) else Rejected
  {
    var ts := OverflowTokens[9..];
    assert ts == ["j>k", "l"];
    SplitJK();
    var twelve := Nine + ["j", ">", "k"];
    assert Grow(Nine, "j>k") == twelve;
    assert ArgsFrom(ts, Nine, vars, asWritten) == ArgsFrom(["l"], twelve, vars, asWritten);
    if asWritten {
      assert Grow(twelve, "l") == twelve + ["l"];
      assert ArgsFrom(["l"], twelve, vars, true) == ArgsFrom([], twelve + ["l"], vars, true);
    }
  }

  lemma SplitJK()
    ensures Divide("j>k") == ["j", ">", "k"]
  {
    var s := "j>k";
    assert IndexOf(s, '>') == 1;
    assert s[..1] == "j" && s[2..] == "k";
  }

  /** A one-letter token that is not `$`, `>` or a space. */
  predicate PlainLetter(t: string) {
    |t| == 1 && t[0] != '$' && t[0] != '>' && t[0] != ' '
  }

  /** One-letter tokens other than `$` are taken as they are. */
  lemma {:induction false} PlainTokens(ts: seq<string>, n: nat, vars: seq<EnvVar>, asWritten: bool)
    requires n <= |ts| && n < MaxArgs
    requires forall i :: 0 <= i < n ==> PlainLetter(ts[i])
    ensures ArgsFrom(ts, [], vars, asWritten) == ArgsFrom(ts[n..], ts[..n], vars, asWritten)
  {
    if n > 0 {
      assert PlainLetter(ts[n - 1]);
      PlainTokens(ts, n - 1, vars, asWritten);
      PlainStep(ts, n - 1, vars, asWritten);
    } else {
      assert ts[0..] == ts;
    }
  }

  /** One one-letter token is appended as it is. */
  lemma PlainStep(ts: seq<string>, m: nat, vars: seq<EnvVar>, asWritten: bool)
    requires m < |ts| && m + 1 < MaxArgs
    requires PlainLetter(ts[m])
    ensures ArgsFrom(ts[m..], ts[..m], vars, asWritten) == ArgsFrom(ts[m + 1..], ts[..m + 1], vars, asWritten)
  {
    var t := ts[m];
    var before := ts[..m];
    assert ts[m..][0] == t && ts[m..][1..] == ts[m + 1..];
    assert !Full(|before|, asWritten);
    assert Substitute(t, vars) == Some(t);
    assert t != "cd";
    assert '>' !in t by {
      assert t == [t[0]];
    }
    assert Grow(before, t) == ts[..m + 1] by {
      assert before + [t] == ts[..m + 1];
    }
  }

  // ---------------------------------------------------------------------------
  // The background marker and the redirection check
  // ---------------------------------------------------------------------------

  datatype Finished = Finished(status: Status, args: seq<string>, background: bool, marker: bool)

  /** The last argument ends in `&`: the background marker. */
  predicate Marked(args: seq<string>) {
    |args| > 0 && |args[|args| - 1]| > 0 && args[|args| - 1][|args[|args| - 1]| - 1] == '&'
  }

  /** What a stripped marker adds to arg_count. */
  function MarkerCount(args: seq<string>): nat {
    if Marked(args) then 1 else 0
  }

  /** The end of split_single_command once the arguments are collected: a
      last argument `&` is dropped, or a last argument ending in `&` loses it,
      either setting the background flag (which is otherwise cleared, and left
      alone when there are no arguments); then a first or last argument `>`
      is refused. An empty last argument is taken not to end in `&`, and with
      no argument left the `>` test fails. */
  function Finish(args: seq<string>, bgIn: bool): (f: Finished)
    ensures f.status == Success || f.status == InvalidInput
    ensures f.marker <==> Marked(args)
    ensures |args| > 0 ==>
      (f.status == Success <==> !(|f.args| > 0 && (f.args[0] == ">" || f.args[|f.args| - 1] == ">")))
    ensures |args| > 0 ==> f.background == f.marker
    ensures |args| == 0 ==> f == Finished(Success, [], bgIn, false)
    ensures !f.marker ==> f.args == args
    ensures f.marker ==> Stripped(args, f.args)
  {
    if |args| == 0 then Finished(Success, [], bgIn, false)
    else
      var last := args[|args| - 1];
      var marked := last == "&" || (|last| > 0 && last[|last| - 1] == '&');
      var rest :=
        if last == "&" then args[..|args| - 1]
        else if marked then args[..|args| - 1] + [last[..|last| - 1]]
        else args;
      var bad := |rest| > 0 && (rest[0] == ">" || rest[|rest| - 1] == ">");
      Finished(if bad then InvalidInput else Success, rest, marked, marked)
  }

  /** `rest` is `args` with the `&` at the end of its last argument removed:
      the arguments before the last are kept, a lone `&` argument is dropped,
      and any other last argument loses only its final character. */
  predicate Stripped(args: seq<string>, rest: seq<string>) {
    var n := |args| - 1;
    && |args| > 0
    && n <= |rest| <= n + 1
    && rest[..n] == args[..n]
    && (args[n] == "&" <==> |rest| == n)
    && (args[n] != "&" ==> rest[n] + "&" == args[n])
  }

  /** The marker is exactly a final `&`, and stripping it removes that one
      character and nothing else. */
  lemma FinishStripsMarker(args: seq<string>, bgIn: bool)
    ensures var f := Finish(args, bgIn);
      && (f.marker <==> Marked(args))
      && (f.marker ==> Stripped(args, f.args))
      && (f.marker ==> Flatten(f.args) + "&" == Flatten(args))
      && (!f.marker ==> f.args == args)
  {
    var f := Finish(args, bgIn);
    if |args| > 0 {
      var n := |args| - 1;
      var last := args[n];
      assert args == args[..n] + [last];
      FlattenAppend(args[..n], [last]);
      assert Flatten([last]) == last;
      if last != "&" && f.marker {
        FlattenAppend(args[..n], [last[..|last| - 1]]);
        assert Flatten([last[..|last| - 1]]) == last[..|last| - 1];
        assert last == last[..|last| - 1] + "&";
      }
    }
  }

  // ---------------------------------------------------------------------------
  // split_single_command
  // ---------------------------------------------------------------------------

  /** What split_single_command decides: its status, the argument vector, the
      background flag, how much it adds to cmd_count and to arg_count, and the
      variable table afterwards. */
  datatype Outcome = Outcome(status: Status, args: seq<string>, background: bool,
                             cmds: nat, counted: nat, vars: seq<EnvVar>)

  /** The outcome for collected arguments: only success counts the command
      and its arguments; a stripped `&` is counted either way. */
  function Conclude(args: seq<string>, bgIn: bool, vars: seq<EnvVar>): (o: Outcome)
    ensures o.vars == vars && (o.status == Success || o.status == InvalidInput)
    ensures o.status == Success ==> o.cmds == 1 && o.counted == |o.args| + MarkerCount(args)
    ensures o.status == Success && |o.args| > 0 ==> o.args[0] != ">" && o.args[|o.args| - 1] != ">"
    ensures o.status == Success ==> |o.args| <= |args|
    ensures o.status != Success ==> o.cmds == 0 && o.counted == MarkerCount(args)
  {
    var f := Finish(args, bgIn);
    var marker := if f.marker then 1 else 0;
    if f.status == Success then Outcome(Success, f.args, f.background, 1, marker + |f.args|, vars)
    else Outcome(f.status, f.args, f.background, 0, marker, vars)
  }

  /** A refusal: nothing counted, the table unchanged. */
  function Refused(st: Status, bgIn: bool, vars: seq<EnvVar>): Outcome {
    Outcome(st, [], bgIn, 0, 0, vars)
  }

  /** The echo branch: deal_with_echo's words, or its error. */
  function EchoOutcome(r: EchoResult, bgIn: bool, vars: seq<EnvVar>): Outcome {
    match r
    case EchoOk(words) => Conclude(words, bgIn, vars)
    case _ => Refused(InvalidInput, bgIn, vars)
  }

  /** The `bg` branch: with no other word and a stopped process still there,
      the process is resumed and counted as one command with one argument;
      the statement is never run. */
  function BgOutcome(ts: seq<string>, stoppedAlive: bool, bgIn: bool, vars: seq<EnvVar>): Outcome {
    var resumed := if |ts| == 1 && stoppedAlive then 1 else 0;
    Outcome(InvalidInput, [], bgIn, resumed, resumed, vars)
  }

  /** The plain branch: the argument loop, then the marker and `>` checks. */
  function LoopOutcome(c: Collection, bgIn: bool, vars: seq<EnvVar>): Outcome {
    match c
    case Collected(args) => Conclude(args, bgIn, vars)
    case Rejected => Refused(InvalidInput, bgIn, vars)
  }

  /** A statement that is not an assignment, by its space tokens `ts`. */
  function ParseWords(command: string, ts: seq<string>, vars: seq<EnvVar>, stoppedAlive: bool, bgIn: bool): Outcome {
    if ts == [] then Refused(InvalidInput, bgIn, vars)
    else if ts[0] == "exit" then Refused(Exit, bgIn, vars)
    else if ts[0] == "echo" then EchoOutcome(EchoWords(command, vars), bgIn, vars)
    else if ts[0] == "bg" then BgOutcome(ts, stoppedAlive, bgIn, vars)
    else LoopOutcome(ArgsFrom(ts, [], vars, false), bgIn, vars)
  }

  /** split_single_command on a statement. `stoppedAlive` stands for the
      waitpid test of the `bg` branch: a stopped process is still there. */
  function ParseSingle(command: string, vars: seq<EnvVar>, stoppedAlive: bool, bgIn: bool): Outcome {
    if IsAssignmentLine(command) then
      var r := AssignLine(command, vars);
      Outcome(r.0, [], bgIn, 0, 0, r.1)
    else ParseWords(command, Tokens(command, ' '), vars, stoppedAlive, bgIn)
  }

  /** The arguments a statement collects before the `&` and `>` checks:
      deal_with_echo's words or the argument loop's. None when it stops
      before them: an assignment, no word, `exit`, `bg`, or an error. */
  function Gathered(command: string, vars: seq<EnvVar>): Option<seq<string>> {
    if IsAssignmentLine(command) then None
    else GatheredWords(command, Tokens(command, ' '), vars)
  }

  function GatheredWords(command: string, ts: seq<string>, vars: seq<EnvVar>): Option<seq<string>> {
    if ts == [] || ts[0] == "exit" || ts[0] == "bg" then None
    else if ts[0] == "echo" then EchoGathered(EchoWords(command, vars))
    else LoopGathered(ArgsFrom(ts, [], vars, false))
  }

  function EchoGathered(r: EchoResult): Option<seq<string>> {
    if r.EchoOk? then Some(r.words) else None
  }

  function LoopGathered(c: Collection): Option<seq<string>> {
    if c.Collected? then Some(c.args) else None
  }

  /** The `&` a statement strips, as arg_count sees it. */
  function GatheredMarker(g: Option<seq<string>>): nat {
    if g.Some? then MarkerCount(g.value) else 0
  }

  /** The counter rule of split_single_command, `marker` being the `&` the
      statement stripped: a successful statement counts as one command and
      counts its arguments plus the marker; a failed one counts the marker,
      plus one for a command it did count (the resumed `bg`), and EXIT or
      SYSTEM_FAILURES count nothing. */
  predicate CountsRight(o: Outcome, marker: nat) {
    && (o.status == Success ==> o.cmds == 1 && o.counted == |o.args| + marker)
    && (o.status != Success ==> o.cmds <= 1 && o.counted == o.cmds + marker)
    && (o.status == Exit || o.status == SystemFailure ==> o.cmds == 0 && o.counted == 0)
  }

  /** What every branch but `bg` guarantees: the counter rule, no command
      counted on failure, and the table untouched. */
  predicate PlainBranch(o: Outcome, vars: seq<EnvVar>, marker: nat) {
    CountsRight(o, marker) && (o.status != Success ==> o.cmds == 0) && o.vars == vars
  }

  lemma EchoBranchFacts(r: EchoResult, bgIn: bool, vars: seq<EnvVar>)
    ensures PlainBranch(EchoOutcome(r, bgIn, vars), vars, GatheredMarker(EchoGathered(r)))
    ensures EchoOutcome(r, bgIn, vars).status == Success ==> r.EchoOk?
  {
  }

  lemma LoopBranchFacts(c: Collection, bgIn: bool, vars: seq<EnvVar>)
    ensures PlainBranch(LoopOutcome(c, bgIn, vars), vars, GatheredMarker(LoopGathered(c)))
    ensures LoopOutcome(c, bgIn, vars).status == Success ==> c.Collected?
  {
  }

  /** A statement that is not an assignment keeps the counter rule and the
      table; a failed one counts a command only as a lone `bg` resuming a
      stopped process. */
  lemma WordsFacts(command: string, ts: seq<string>, vars: seq<EnvVar>, stoppedAlive: bool, bgIn: bool)
    requires ts != [] && ts[0] == "echo" ==>
      var r := EchoWords(command, vars);
      && PlainBranch(EchoOutcome(r, bgIn, vars), vars, GatheredMarker(EchoGathered(r)))
      && (EchoOutcome(r, bgIn, vars).status == Success ==> r.EchoOk?)
    requires ts != [] && ts[0] != "exit" && ts[0] != "echo" && ts[0] != "bg" ==>
      var c := ArgsFrom(ts, [], vars, false);
      && PlainBranch(LoopOutcome(c, bgIn, vars), vars, GatheredMarker(LoopGathered(c)))
      && (LoopOutcome(c, bgIn, vars).status == Success ==> c.Collected?)
    ensures var o := ParseWords(command, ts, vars, stoppedAlive, bgIn);
      var g := GatheredWords(command, ts, vars);
      && CountsRight(o, GatheredMarker(g)) && o.vars == vars
      && (o.status == Success ==> g.Some?)
      && (o.status != Success && o.cmds == 1 ==> ts == ["bg"] && stoppedAlive)
  {
    if ts != [] && ts[0] == "bg" && |ts| == 1 {
      assert ts == ["bg"];
    }
  }

  /** Only a successful statement counts as a command; it counts its
      arguments plus the `&` it stripped from the arguments it gathered. A
      failed statement counts exactly that `&` (a statement refused by the
      `>` check), or the command and argument of a resumed `bg`. */
  lemma ParseCounters(command: string, vars: seq<EnvVar>, stoppedAlive: bool, bgIn: bool)
    ensures var o := ParseSingle(command, vars, stoppedAlive, bgIn);
      var g := Gathered(command, vars);
      && CountsRight(o, GatheredMarker(g))
      && (o.status == Success ==> g.Some?)
      && (o.status != Success && o.cmds == 1 ==>
            !IsAssignmentLine(command) && Tokens(command, ' ') == ["bg"] && stoppedAlive)
  {
    if !IsAssignmentLine(command) {
      var ts := Tokens(command, ' ');
      EchoBranchFacts(EchoWords(command, vars), bgIn, vars);
      LoopBranchFacts(ArgsFrom(ts, [], vars, false), bgIn, vars);
      WordsFacts(command, ts, vars, stoppedAlive, bgIn);
    }
  }

  /** `ls &` runs `ls` in the background: one command, and two arguments
      counted, `ls` and the stripped `&`. */
  lemma BackgroundExample(vars: seq<EnvVar>, stoppedAlive: bool, bgIn: bool)
    ensures ParseSingle("ls &", vars, stoppedAlive, bgIn) == Outcome(Success, ["ls"], true, 1, 2, vars)
  {
    assert !IsAssignmentLine("ls &");
    LsTokens();
    LsCollected(vars);
    assert Finish(["ls", "&"], bgIn) == Finished(Success, ["ls"], true, true);
  }

  lemma LsTokens()
    ensures Tokens("ls &", ' ') == ["ls", "&"]
  {
    var c := "ls &";
    assert NextToken(c, ' ', 0) == Some((0, 2));
    assert NextToken(c, ' ', 3) == Some((3, 4));
    assert TokensFrom(c, ' ', 4) == [];
    assert c[0..2] == "ls" && c[3..4] == "&";
    assert TokensFrom(c, ' ', 3) == ["&"];
    assert TokensFrom(c, ' ', 0) == ["ls"] + TokensFrom(c, ' ', 3);
  }

  lemma LsCollected(vars: seq<EnvVar>)
    ensures ArgsFrom(["ls", "&"], [], vars, false) == Collected(["ls", "&"])
  {
    assert Divide("ls") == ["ls"] && Divide("&") == ["&"];
    assert ArgsFrom(["ls", "&"], [], vars, false) == ArgsFrom(["&"], ["ls"], vars, false);
    assert ArgsFrom(["&"], ["ls"], vars, false) == ArgsFrom([], ["ls", "&"], vars, false);
  }

  /** A successful statement has at most MAX_ARGS + 2 arguments, and neither
      its first nor its last argument is a bare `>`. */
  predicate WellFormed(o: Outcome) {
    o.status == Success ==>
      && |o.args| <= MaxArgs + 2
      && (|o.args| > 0 ==> o.args[0] != ">" && o.args[|o.args| - 1] != ">")
  }

  lemma ParseWellFormed(command: string, vars: seq<EnvVar>, stoppedAlive: bool, bgIn: bool)
    ensures WellFormed(ParseSingle(command, vars, stoppedAlive, bgIn))
  {
    if !IsAssignmentLine(command) {
      var ts := Tokens(command, ' ');
      if ts != [] && ts[0] != "exit" && ts[0] == "echo" {
        EchoBound(command, 0, [], vars);
        EchoWellFormed(EchoWords(command, vars), bgIn, vars);
      } else if ts != [] && ts[0] != "exit" && ts[0] != "bg" {
        ArgsBound(ts, [], vars);
        LoopWellFormed(ArgsFrom(ts, [], vars, false), bgIn, vars);
      }
      WordsWellFormed(command, ts, vars, stoppedAlive, bgIn);
    }
  }

  lemma EchoWellFormed(r: EchoResult, bgIn: bool, vars: seq<EnvVar>)
    requires r.EchoOk? ==> |r.words| <= MaxArgs
    ensures WellFormed(EchoOutcome(r, bgIn, vars))
  {
  }

  lemma LoopWellFormed(c: Collection, bgIn: bool, vars: seq<EnvVar>)
    requires c.Collected? ==> |c.args| <= MaxArgs + 2
    ensures WellFormed(LoopOutcome(c, bgIn, vars))
  {
  }

  lemma WordsWellFormed(command: string, ts: seq<string>, vars: seq<EnvVar>, stoppedAlive: bool, bgIn: bool)
    requires ts != [] && ts[0] == "echo" ==> WellFormed(EchoOutcome(EchoWords(command, vars), bgIn, vars))
    requires ts != [] && ts[0] != "exit" && ts[0] != "echo" && ts[0] != "bg" ==>
      WellFormed(LoopOutcome(ArgsFrom(ts, [], vars, false), bgIn, vars))
    ensures WellFormed(ParseWords(command, ts, vars, stoppedAlive, bgIn))
  {
  }

  /** `exit` as the first word ends the shell, counting nothing. */
  lemma ParseExit(command: string, vars: seq<EnvVar>, stoppedAlive: bool, bgIn: bool)
    requires !IsAssignmentLine(command)
    requires Tokens(command, ' ') != [] && Tokens(command, ' ')[0] == "exit"
    ensures ParseSingle(command, vars, stoppedAlive, bgIn) == Outcome(Exit, [], bgIn, 0, 0, vars)
  {
  }

  /** Only an assignment changes the table, and an assignment is never a
      command: it reports INVALID_INPUT, or SYSTEM_FAILURES when the table is
      full, and counts nothing. */
  lemma ParseTable(command: string, vars: seq<EnvVar>, stoppedAlive: bool, bgIn: bool)
    ensures var o := ParseSingle(command, vars, stoppedAlive, bgIn);
      && (!IsAssignmentLine(command) ==> o.vars == vars)
      && (IsAssignmentLine(command) ==>
            (o.status == InvalidInput || o.status == SystemFailure) && o.cmds == 0 && o.counted == 0)
  {
    if !IsAssignmentLine(command) {
      var ts := Tokens(command, ' ');
      EchoBranchFacts(EchoWords(command, vars), bgIn, vars);
      LoopBranchFacts(ArgsFrom(ts, [], vars, false), bgIn, vars);
      WordsFacts(command, ts, vars, stoppedAlive, bgIn);
    }
  }

  /** A `cd` word or a `$name` for an unset name makes a plain statement
      INVALID_INPUT, counting nothing. */
  lemma ParseRejects(command: string, vars: seq<EnvVar>, stoppedAlive: bool, bgIn: bool, k: nat)
    requires !IsAssignmentLine(command)
    requires var ts := Tokens(command, ' ');
      k < |ts| && ts[0] != "exit" && ts[0] != "echo" && ts[0] != "bg"
      && (ts[k] == "cd" || Substitute(ts[k], vars).None?)
    ensures ParseSingle(command, vars, stoppedAlive, bgIn) == Outcome(InvalidInput, [], bgIn, 0, 0, vars)
  {
    var ts := Tokens(command, ' ');
    if ts[k] == "cd" {
      CdRejected(ts, [], vars, false);
    } else {
      UnsetRejected(ts, [], vars, false, k);
    }
  }

  /** An accepted assignment is read back by a later `$name`: the statement
      `$name` then yields the value, divided around any `>`. */
  lemma AssignThenSubstitute(vars: seq<EnvVar>, name: string, value: string, rest: seq<string>)
    requires Assign(vars, name, value).Some?
    requires value != "cd" && value != " "
    ensures var w := Assign(vars, name, value).value;
      ArgsFrom(["$" + name] + rest, [], w, false) == ArgsFrom(rest, Divide(value), w, false)
  {
    var w := Assign(vars, name, value).value;
    AssignThenLookup(vars, name, value);
    var t := "$" + name;
    var ts := [t] + rest;
    assert t[1..] == name;
    assert Substitute(t, w) == Some(value);
    assert ts[0] == t && ts[1..] == rest;
    assert !Full(0, false);
    assert [] + Divide(value) == Divide(value);
  }

  // ---------------------------------------------------------------------------
  // The shell's state
  // ---------------------------------------------------------------------------

  class Shell {
    /** The prompt's command and argument counters. */
    var cmdCount: int
    var argCount: int
    /** The shell-variable table. */
    const env: EnvTable

    ghost predicate Valid()
      reads this, env, env.slots
    {
      env.Valid()
    }

    constructor ()
      ensures Valid() && fresh(env) && fresh(env.slots)
      ensures cmdCount == 0 && argCount == 0 && env.Entries() == []
    {
      cmdCount := 0;
      argCount := 0;
      env := new EnvTable();
    }

    /** The assignment branch of split_single_command (is_assignment,
        remove_spaces_and_quotes, my_setenv). */
    method Assignment(command: string) returns (st: Status)
      requires Valid()
      modifies env, env.slots
      ensures Valid() && env.slots == old(env.slots)
      ensures (st, env.Entries()) == AssignLine(command, old(env.Entries()))
    {
      ghost var vars := env.Entries();
      var name := NextToken(command, '=', 0);
      if name.None? {
        assert AssignLine(command, vars) == (InvalidInput, vars);
        return InvalidInput;
      }
      var a0, b0 := name.value.0, name.value.1;
      var value := NextToken(command, '=', Resume(command, b0));
      if value.None? {
        assert AssignLine(command, vars) == (InvalidInput, vars);
        return InvalidInput;
      }
      var a1, b1 := value.value.0, value.value.1;
      var ok := IsAssignment(command, a0, a1);
      if !ok {
        assert AssignLine(command, vars) == (InvalidInput, vars);
        return InvalidInput;
      }
      if IndexOf(command[a1..b1], '>') >= 0 {
        assert AssignLine(command, vars) == (InvalidInput, vars);
        return InvalidInput;
      }
      var n := RemoveSpacesAndQuotes(command[a0..b0]);
      var v := RemoveSpacesAndQuotes(command[a1..b1]);
      ghost var w := Assign(vars, n, v);
      assert AssignLine(command, vars) == if w.None? then (SystemFailure, vars) else (InvalidInput, w.value);
      var stored := env.Set(n, v);
      if stored == SystemFailure {
        return SystemFailure;
      }
      return InvalidInput;
    }

    /** The argument loop of split_single_command, strtok on spaces. */
    method CollectArguments(command: string) returns (ok: bool, args: seq<string>)
      requires Valid()
      ensures var r := ArgsFrom(Tokens(command, ' '), [], env.Entries(), false);
        ok == r.Collected? && (ok ==> args == r.args)
    {
      ghost var vars := env.Entries();
      args := [];
      var pos := 0;
      while true
        invariant pos <= |command|
        invariant ArgsFrom(Tokens(command, ' '), [], vars, false) ==
          ArgsFrom(TokensFrom(command, ' ', pos), args, vars, false)
        decreases |command| - pos
      {
        var tok := NextToken(command, ' ', pos);
        if tok.None? {
          assert TokensFrom(command, ' ', pos) == [];
          return true, args;
        }
        var a, b := tok.value.0, tok.value.1;
        var next := Resume(command, b);
        var token := command[a..b];
        TokensStep(command, ' ', pos);
        ghost var ts := TokensFrom(command, ' ', pos);
        assert ts[0] == token && ts[1..] == TokensFrom(command, ' ', next);
        if |args| >= MaxArgs {
          return false, args;
        }
        if token[0] == '$' {
          var v := env.Get(token[1..]);
          if v.None? {
            return false, args;
          }
          token := v.value;
        }
        if token == "cd" {
          return false, args;
        }
        if token != " " {
          args := args + Divide(token);
        }
        pos := next;
      }
    }

    /** split_single_command: parse one statement, updating the counters and
        the variable table. */
    method SplitSingleCommand(command: string, bgIn: bool, stoppedAlive: bool)
      returns (st: Status, args: seq<string>, background: bool)
      requires Valid()
      modifies this`cmdCount, this`argCount, env, env.slots
      ensures Valid() && env.slots == old(env.slots)
      ensures var o := ParseSingle(command, old(env.Entries()), stoppedAlive, bgIn);
        && st == o.status && args == o.args && background == o.background
        && cmdCount == old(cmdCount) + o.cmds && argCount == old(argCount) + o.counted
        && env.Entries() == o.vars
    {
      ghost var vars := env.Entries();
      ghost var o := ParseSingle(command, vars, stoppedAlive, bgIn);
      if IndexOf(command, '=') >= 0 && !StartsWith(command, "echo") {
        assert IsAssignmentLine(command);
        ghost var r := AssignLine(command, vars);
        assert o == Outcome(r.0, [], bgIn, 0, 0, r.1);
        st := Assignment(command);
        assert st == o.status && env.Entries() == o.vars;
        return st, [], bgIn;
      }
      ghost var ts := Tokens(command, ' ');
      assert o == ParseWords(command, ts, vars, stoppedAlive, bgIn);
      EchoBranchFacts(EchoWords(command, vars), bgIn, vars);
      LoopBranchFacts(ArgsFrom(ts, [], vars, false), bgIn, vars);
      WordsFacts(command, ts, vars, stoppedAlive, bgIn);
      st, args, background := SplitWords(command, bgIn, stoppedAlive);
    }

    /** split_single_command past the assignment test: the first word picks
        `exit`, `echo`, `bg` or the argument loop. */
    method SplitWords(command: string, bgIn: bool, stoppedAlive: bool)
      returns (st: Status, args: seq<string>, background: bool)
      requires Valid()
      modifies this`cmdCount, this`argCount
      ensures var o := ParseWords(command, Tokens(command, ' '), env.Entries(), stoppedAlive, bgIn);
        && st == o.status && args == o.args && background == o.background
        && cmdCount == old(cmdCount) + o.cmds && argCount == old(argCount) + o.counted
    {
      var first := NextToken(command, ' ', 0);
      if first.None? {
        assert Tokens(command, ' ') == [];
        return InvalidInput, [], bgIn;
      }
      TokensStep(command, ' ', 0);
      var token := command[first.value.0..first.value.1];
      assert Tokens(command, ' ')[0] == token;
      if token == "exit" {
        return Exit, [], bgIn;
      } else if token == "echo" {
        st, args, background := EchoBranch(command, bgIn);
      } else if token == "bg" {
        st, args, background := BgBranch(command, first.value.1, bgIn, stoppedAlive);
      } else {
        st, args, background := LoopBranch(command, bgIn);
      }
    }

    /** The `echo` branch of split_single_command. */
    method EchoBranch(command: string, bgIn: bool)
      returns (st: Status, args: seq<string>, background: bool)
      requires Valid()
      modifies this`cmdCount, this`argCount
      ensures var o := EchoOutcome(EchoWords(command, env.Entries()), bgIn, env.Entries());
        && st == o.status && args == o.args && background == o.background
        && cmdCount == old(cmdCount) + o.cmds && argCount == old(argCount) + o.counted
    {
      var r := DealWithEcho(command, env);
      if !r.EchoOk? {
        return r.Status(), [], bgIn;
      }
      st, args, background := CountCollected(r.words, bgIn);
    }

    /** The `bg` branch of split_single_command: the first word ends at
        `firstEnd`; a lone `bg` resumes a stopped process. */
    method BgBranch(command: string, firstEnd: nat, bgIn: bool, stoppedAlive: bool)
      returns (st: Status, args: seq<string>, background: bool)
      requires NextToken(command, ' ', 0).Some? && NextToken(command, ' ', 0).value.1 == firstEnd
      modifies this`cmdCount, this`argCount
      ensures var o := BgOutcome(Tokens(command, ' '), stoppedAlive, bgIn, []);
        && st == o.status && args == o.args && background == o.background
        && cmdCount == old(cmdCount) + o.cmds && argCount == old(argCount) + o.counted
    {
      TokensStep(command, ' ', 0);
      var next := Resume(command, firstEnd);
      var second := NextToken(command, ' ', next);
      if second.None? {
        assert TokensFrom(command, ' ', next) == [];
        assert |Tokens(command, ' ')| == 1;
        if stoppedAlive {
          cmdCount := cmdCount + 1;
          argCount := argCount + 1;
        }
      } else {
        TokensStep(command, ' ', next);
        assert |Tokens(command, ' ')| > 1;
      }
      return InvalidInput, [], bgIn;
    }

    /** The argument loop of split_single_command and its end. */
    method LoopBranch(command: string, bgIn: bool)
      returns (st: Status, args: seq<string>, background: bool)
      requires Valid()
      modifies this`cmdCount, this`argCount
      ensures var o := LoopOutcome(ArgsFrom(Tokens(command, ' '), [], env.Entries(), false), bgIn, env.Entries());
        && st == o.status && args == o.args && background == o.background
        && cmdCount == old(cmdCount) + o.cmds && argCount == old(argCount) + o.counted
    {
      var ok, collected := CollectArguments(command);
      if !ok {
        return InvalidInput, [], bgIn;
      }
      st, args, background := CountCollected(collected, bgIn);
    }

    /** The end of split_single_command for collected arguments: the marker
        and `>` checks of Finish, then the counters. */
    method CountCollected(collected: seq<string>, bgIn: bool)
      returns (st: Status, args: seq<string>, background: bool)
      modifies this`cmdCount, this`argCount
      ensures var o := Conclude(collected, bgIn, []);
        && st == o.status && args == o.args && background == o.background
        && cmdCount == old(cmdCount) + o.cmds && argCount == old(argCount) + o.counted
    {
      var f := Finish(collected, bgIn);
      st, args, background := f.status, f.args, f.background;
      if f.marker {
        argCount := argCount + 1;
      }
      if f.status == Success {
        cmdCount := cmdCount + 1;
        argCount := argCount + |args|;
      }
    }

    /** The counter updates of execute_pipe_commands: every stage counts as
        a command, count_arguments counts their words, and a trailing `&`
        counts once more. The statement itself is reported as INVALID_INPUT,
        so split_multiple_commands runs nothing more for it. */
    method ExecutePipeCommands(command: string) returns (st: Status)
      modifies this`cmdCount, this`argCount
      ensures st == InvalidInput
      ensures var stages := Stages(command);
        && cmdCount == old(cmdCount) + |stages|
        && argCount == old(argCount) + (if PipeBackground(stages) then 1 else 0) + CountArgs(stages)
    {
      var stages, background := SplitPipeline(command);
      if background {
        argCount := argCount + 1;
      }
      var words := CountArguments(stages);
      cmdCount := cmdCount + |stages|;
      argCount := argCount + words;
      return InvalidInput;
    }
  }
}
