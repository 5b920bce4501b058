/**
 * cmdline.c: the command-line parser.  cmdLineParse resets the state
 * variables of the switches, then walks argv from argument 1: an argument
 * that names no switch is skipped, a boolean switch is removed from argv and
 * sets its state, a valued switch is removed together with the argument after
 * it, and the first error (a duplicate switch, a missing or malformed
 * parameter, a help switch) stops the walk and is packed into the result
 * with the argument number.
 *
 * The switch table is a sequence ended by its first CMDLINE_END entry; the
 * state variables the switches point to are an array indexed by each
 * switch's `variable` (two switches may share one, as the
 * CMDLINE_BOOL_TRUE / CMDLINE_BOOL_FALSE pair of a flag usually does); a
 * NULL state pointer is None.  strtol and strtod are parameters.
 */
module CmdLine {
  import opened Bits

  datatype Option<T> = None | Some(value: T)

  /** CmdLineSwitchType. */
  datatype SwitchType = Bool | String | Long | LongLong | Double | Help | End

  /** CmdLineSwitch: its type, its text, the state variable it writes and, for a boolean switch, the value it stores. */
  datatype Switch = Switch(switchType: SwitchType, text: string, variable: nat, boolState: int)

  /** What a state variable points to once its switch has been seen. */
  datatype Value = BoolValue(b: int) | StringValue(s: string) | IntegerValue(n: int) | NumberValue(r: real)

  /** The result of strtol / strtod: the converted value and the text left at *endPointer. */
  datatype Conversion<T> = Conversion(value: T, rest: string)

  /** The C library conversions the parser calls, with base 10 for strtol. */
  datatype Library = Library(strtol: string -> Conversion<int>, strtod: string -> Conversion<real>)

  /** CmdLineExitCode. */
  datatype ExitCode = Successful | DuplicateSwitch | ParameterRequired | IntegerValueExpected | NumberExpected | HelpRequested

  /** The enumerators' values, CMDLINE_SUCCESSFUL = 0 onwards. */
  function Code(e: ExitCode): nat
  {
    match e
    case Successful => 0
    case DuplicateSwitch => 1
    case ParameterRequired => 2
    case IntegerValueExpected => 3
    case NumberExpected => 4
    case HelpRequested => 5
  }

  // ------------------------------------------------------------ exit codes

  /** Argument numbers occupy the low 24 bits of an exit value. */
  const ARGUMENT_LIMIT: nat := 0x100_0000

  /** buildExitCode: the error code in the bits from 24 up, the argument number below. */
  function BuildExitCode(errorCode: ExitCode, argumentNumber: nat): nat
  {
    Shl(Code(errorCode), 24) + argumentNumber
  }

  /** cmdLineExitCode: `exitValue >> 24`. */
  function ExitCodeOf(exitValue: nat): nat
  {
    Shr(exitValue, 24)
  }

  /** cmdLineArgumentNumber: `exitValue & 0x00FFFFFF`. */
  function ArgumentNumberOf(exitValue: nat): nat
  {
    And(exitValue, ARGUMENT_LIMIT - 1)
  }

  lemma Pow2Of24()
    ensures Pow2(24) == ARGUMENT_LIMIT
  {
    assert Pow2(2) == 4;
    Pow2Add(2, 2);
    Pow2Add(4, 4);
    Pow2Add(8, 8);
    Pow2Add(16, 8);
  }

  lemma {:induction false} ShlIsProduct(a: nat, s: nat)
    ensures Shl(a, s) == a * Pow2(s)
    decreases s
  {
    if s > 0 {
      ShlIsProduct(2 * a, s - 1);
      assert (2 * a) * Pow2(s - 1) == a * (2 * Pow2(s - 1));
    }
  }

  /** The bits of a * 2^s + n, for n below 2^s: those of n below s, those of a above. */
  lemma {:induction false} BitOfPacked(a: nat, s: nat, n: nat, i: nat)
    requires n < Pow2(s)
    ensures Bit(a * Pow2(s) + n, i) == if i < s then Bit(n, i) else Bit(a, i - s)
    decreases s
  {
    if s == 0 {
      assert n == 0;
    } else {
      var x := a * Pow2(s) + n;
      assert a * Pow2(s) == 2 * (a * Pow2(s - 1));
      assert x / 2 == a * Pow2(s - 1) + n / 2 && x % 2 == n % 2;
      if i > 0 {
        BitOfPacked(a, s - 1, n / 2, i - 1);
      }
    }
  }

  /** The decoders undo buildExitCode for argument numbers that fit in 24 bits. */
  lemma ExitCodeRoundTrip(errorCode: ExitCode, argumentNumber: nat)
    requires argumentNumber < ARGUMENT_LIMIT
    ensures ExitCodeOf(BuildExitCode(errorCode, argumentNumber)) == Code(errorCode)
    ensures ArgumentNumberOf(BuildExitCode(errorCode, argumentNumber)) == argumentNumber
  {
    var e := Code(errorCode);
    var x := BuildExitCode(errorCode, argumentNumber);
    Pow2Of24();
    ShlIsProduct(e, 24);
    forall i: nat
      ensures Bit(Shr(x, 24), i) == Bit(e, i)
    {
      BitShr(x, 24, i);
      BitOfPacked(e, 24, argumentNumber, i + 24);
    }
    BitExt(Shr(x, 24), e);
    forall i: nat
      ensures Bit(And(x, ARGUMENT_LIMIT - 1), i) == Bit(argumentNumber, i)
    {
      BitAnd(x, ARGUMENT_LIMIT - 1, i);
      BitLowOnes(24, i);
      BitOfPacked(e, 24, argumentNumber, i);
      if 24 <= i {
        BitAboveWidth(argumentNumber, 24, i);
      }
    }
    BitExt(And(x, ARGUMENT_LIMIT - 1), argumentNumber);
  }

  /** An error always packs to a nonzero value, so 0 means success. */
  lemma ErrorIsNonzero(errorCode: ExitCode, argumentNumber: nat)
    requires errorCode != Successful
    ensures BuildExitCode(errorCode, argumentNumber) != 0
  {
    Pow2Of24();
    ShlIsProduct(Code(errorCode), 24);
  }

  // ---------------------------------------------------------- the switches

  /** The table has its CMDLINE_DEFINITION_END entry. */
  predicate Terminated(switches: seq<Switch>)
  {
    exists i :: 0 <= i < |switches| && switches[i].switchType == End
  }

  /** The index of the table's first CMDLINE_END entry. */
  function FirstEnd(switches: seq<Switch>): (r: nat)
    requires Terminated(switches)
    ensures r < |switches| && switches[r].switchType == End
    ensures forall j :: 0 <= j < r ==> switches[j].switchType != End
  {
    if switches[0].switchType == End then 0
    else
      var i :| 0 <= i < |switches| && switches[i].switchType == End;
      assert switches[1..][i - 1].switchType == End;
      1 + FirstEnd(switches[1..])
  }

  /** Every switch before the end that has a state variable points into the store. */
  predicate ValidSwitches(switches: seq<Switch>, variables: nat)
  {
    Terminated(switches) &&
    forall i :: 0 <= i < FirstEnd(switches) && switches[i].switchType != Help ==> switches[i].variable < variables
  }

  /**
   * The switch search of cmdLineParse, from entry i: the first entry that is
   * CMDLINE_END or whose text is the argument.
   */
  function MatchFrom(switches: seq<Switch>, argument: string, i: nat): (r: nat)
    requires Terminated(switches) && i <= FirstEnd(switches)
    ensures i <= r <= FirstEnd(switches)
    ensures switches[r].switchType == End || switches[r].text == argument
    ensures forall j :: i <= j < r ==> switches[j].switchType != End && switches[j].text != argument
    decreases FirstEnd(switches) - i
  {
    if switches[i].switchType == End || switches[i].text == argument then i
    else MatchFrom(switches, argument, i + 1)
  }

  /** The entry an argument selects: its switch, or the end entry when it names none. */
  function Matched(switches: seq<Switch>, argument: string): Switch
    requires Terminated(switches)
  {
    switches[MatchFrom(switches, argument, 0)]
  }

  /** The entry an argument selects is a switch with a state variable in the store, unless it is the end or a help switch. */
  lemma MatchedVariable(switches: seq<Switch>, variables: nat, argument: string)
    requires ValidSwitches(switches, variables)
    ensures Matched(switches, argument).switchType !in {Help, End} ==> Matched(switches, argument).variable < variables
  {
    var r := MatchFrom(switches, argument, 0);
    if switches[r].switchType != End {
      assert r != FirstEnd(switches);
    }
  }

  /** The switch search of cmdLineParse. */
  method FindSwitch(switches: seq<Switch>, argument: string) returns (index: nat)
    requires Terminated(switches)
    ensures index == MatchFrom(switches, argument, 0)
  {
    index := 0;
    while switches[index].switchType != End && switches[index].text != argument
      invariant index <= FirstEnd(switches)
      invariant MatchFrom(switches, argument, index) == MatchFrom(switches, argument, 0)
      decreases FirstEnd(switches) - index
    {
      index := index + 1;
    }
  }

  // ------------------------------------------------------- state variables

  /** The first loop of cmdLineParse sets the state variable of every switch before the end, except help switches, to NULL. */
  ghost predicate Resets(switches: seq<Switch>, v: nat)
    requires Terminated(switches)
  {
    exists i :: 0 <= i < FirstEnd(switches) && switches[i].switchType != Help && switches[i].variable == v
  }

  ghost function ResetStates(switches: seq<Switch>, states: seq<Option<Value>>): (r: seq<Option<Value>>)
    requires Terminated(switches)
    ensures |r| == |states|
    ensures forall v :: 0 <= v < |states| ==> r[v] == if Resets(switches, v) then None else states[v]
  {
    seq(|states|, v requires 0 <= v < |states| => if Resets(switches, v) then None else states[v])
  }

  /** The reset loop at the top of cmdLineParse. */
  method ResetStateVariables(switches: seq<Switch>, states: array<Option<Value>>)
    requires ValidSwitches(switches, states.Length)
    modifies states
    ensures states[..] == ResetStates(switches, old(states[..]))
  {
    var index := 0;
    while switches[index].switchType != End
      invariant index <= FirstEnd(switches)
      invariant forall v :: 0 <= v < states.Length ==>
        states[v] == if exists i :: 0 <= i < index && switches[i].switchType != Help && switches[i].variable == v
                     then None else old(states[v])
      decreases FirstEnd(switches) - index
    {
      if switches[index].switchType != Help {
        states[switches[index].variable] := None;
      }
      index := index + 1;
    }
  }

  // ------------------------------------------------------ deleteParameter

  /** The argument list with entry n taken out. */
  function Delete<T>(s: seq<T>, n: nat): (r: seq<T>)
    requires n < |s|
    ensures |r| == |s| - 1
    ensures forall i :: 0 <= i < n ==> r[i] == s[i]
    ensures forall i :: n <= i < |r| ==> r[i] == s[i + 1]
  {
    s[..n] + s[n + 1..]
  }

  /** Putting the entry back where it was restores the list. */
  lemma DeleteInsert<T>(s: seq<T>, n: nat)
    requires n < |s|
    ensures Delete(s, n)[..n] + [s[n]] + Delete(s, n)[n..] == s
  {
    var r := Delete(s, n)[..n] + [s[n]] + Delete(s, n)[n..];
    assert |r| == |s|;
    forall i | 0 <= i < |s|
      ensures r[i] == s[i]
    {
      if i > n {
        assert r[i] == Delete(s, n)[i - 1];
      }
    }
  }

  /**
   * deleteParameter: entries after n move down one place, the slot freed at
   * the end of the list becomes NULL, and the count drops by one.
   */
  method DeleteParameter(argv: array<Option<string>>, argumentCount: nat, argumentNumber: nat) returns (count: nat)
    requires argumentNumber < argumentCount <= argv.Length
    modifies argv
    ensures count == argumentCount - 1
    ensures argv[..count] == Delete(old(argv[..argumentCount]), argumentNumber)
    ensures argv[count] == None
    ensures argv[argumentCount..] == old(argv[argumentCount..])
  {
    ghost var original := argv[..];
    var s := argumentNumber + 1;
    var d := argumentNumber;
    var remaining: nat := argumentCount - argumentNumber - 1;
    while remaining != 0
      invariant argumentNumber <= d && d == s - 1 && s + remaining == argumentCount
      invariant forall i :: 0 <= i < argumentNumber ==> argv[i] == original[i]
      invariant forall i :: argumentNumber <= i < d ==> argv[i] == original[i + 1]
      invariant forall i :: s <= i < argv.Length ==> argv[i] == original[i]
      decreases remaining
    {
      argv[d] := argv[s];
      d := d + 1;
      s := s + 1;
      remaining := remaining - 1;
    }
    argv[d] := None;
    count := argumentCount - 1;
  }

  // ------------------------------------------------------------ the parse

  /**
   * How the walk treated one argument of the original list: skipped because
   * it names no switch, taken alone as a boolean switch, or taken with the
   * argument after it as a valued switch.
   */
  datatype Token = Skipped(argument: string) | Flag(argument: string) | Valued(argument: string, parameter: string)

  /** The arguments a token was made from. */
  function Arguments(t: Token): seq<string>
  {
    match t
    case Valued(a, p) => [a, p]
    case _ => [t.argument]
  }

  /** The arguments a token leaves in argv. */
  function Left(t: Token): seq<string>
  {
    if t.Skipped? then [t.argument] else []
  }

  /** The arguments the tokens were made from, in order. */
  function Flatten(tokens: seq<Token>): (r: seq<string>)
    ensures |tokens| <= |r|
  {
    if |tokens| == 0 then [] else Arguments(tokens[0]) + Flatten(tokens[1..])
  }

  /** The arguments that stay in argv: the skipped ones, in order. */
  function Kept(tokens: seq<Token>): (r: seq<string>)
    ensures |r| <= |tokens|
  {
    if |tokens| == 0 then [] else Left(tokens[0]) + Kept(tokens[1..])
  }

  /** The parameter of a valued switch converts completely. */
  predicate Accepted(switchType: SwitchType, parameter: string, library: Library)
  {
    match switchType
    case Long | LongLong => |library.strtol(parameter).rest| == 0
    case Double => |library.strtod(parameter).rest| == 0
    case _ => true
  }

  /** A token is of the kind its argument's switch calls for. */
  ghost predicate Fits(t: Token, switches: seq<Switch>, library: Library)
    requires Terminated(switches)
  {
    var kind := Matched(switches, t.argument).switchType;
    match t
    case Skipped(_) => kind == End
    case Flag(_) => kind == Bool
    case Valued(_, p) => kind in {String, Long, LongLong, Double} && Accepted(kind, p, library)
  }

  /** Every token is of the kind its argument's switch calls for. */
  ghost predicate Classified(tokens: seq<Token>, switches: seq<Switch>, library: Library)
    requires Terminated(switches)
  {
    forall j :: 0 <= j < |tokens| ==> Fits(tokens[j], switches, library)
  }

  /** The state variable a switch token writes. */
  function Variable(t: Token, switches: seq<Switch>): nat
    requires Terminated(switches)
  {
    Matched(switches, t.argument).variable
  }

  /** The value a switch token stores: its boolState, its string, or its parameter converted by strtol or strtod. */
  function Stored(t: Token, switches: seq<Switch>, library: Library): Value
    requires Terminated(switches)
  {
    var sw := Matched(switches, t.argument);
    match t
    case Valued(_, p) =>
      (match sw.switchType
       case Long | LongLong => IntegerValue(library.strtol(p).value)
       case Double => NumberValue(library.strtod(p).value)
       case _ => StringValue(p))
    case _ => BoolValue(sw.boolState)
  }

  /** The state variables after a token: a switch token's value stored into its variable. */
  ghost function Store(t: Token, states: seq<Option<Value>>, switches: seq<Switch>, library: Library): seq<Option<Value>>
    requires Terminated(switches)
  {
    if t.Skipped? || |states| <= Variable(t, switches) then states
    else states[Variable(t, switches) := Some(Stored(t, switches, library))]
  }

  /** The state variables after storing each switch token's value in turn. */
  ghost function Assign(tokens: seq<Token>, states: seq<Option<Value>>, switches: seq<Switch>, library: Library): seq<Option<Value>>
    requires Terminated(switches)
  {
    if |tokens| == 0 then states
    else Assign(tokens[1..], Store(tokens[0], states, switches, library), switches, library)
  }

  /** A switch token's state variable is in the store and unset. */
  ghost predicate Free(t: Token, states: seq<Option<Value>>, switches: seq<Switch>)
    requires Terminated(switches)
  {
    t.Skipped? || (Variable(t, switches) < |states| && states[Variable(t, switches)].None?)
  }

  /** The switch tokens name distinct state variables, none of them set beforehand. */
  ghost predicate Unset(tokens: seq<Token>, states: seq<Option<Value>>, switches: seq<Switch>)
    requires Terminated(switches)
  {
    (forall j :: 0 <= j < |tokens| ==> Free(tokens[j], states, switches)) &&
    forall j, k :: 0 <= k < j < |tokens| && !tokens[j].Skipped? && !tokens[k].Skipped? ==>
      Variable(tokens[k], switches) != Variable(tokens[j], switches)
  }

  /** Where the walk over argv stops: the exit code, the argument number, argv and the state variables. */
  datatype Outcome = Outcome(exitCode: ExitCode, argumentNumber: nat, arguments: seq<string>, states: seq<Option<Value>>)

  /** Why a walk that stopped with an error stopped at its argument number. */
  ghost predicate ErrorCause(o: Outcome, switches: seq<Switch>, library: Library)
    requires Terminated(switches) && o.argumentNumber < |o.arguments|
  {
    var n := o.argumentNumber;
    var sw := Matched(switches, o.arguments[n]);
    var last := n == |o.arguments| - 1;
    match o.exitCode
    case Successful => false
    case HelpRequested => sw.switchType == Help
    case DuplicateSwitch =>
      sw.switchType !in {Help, End} && sw.variable < |o.states| && o.states[sw.variable].Some?
    case ParameterRequired =>
      sw.switchType in {String, Long, LongLong, Double} && sw.variable < |o.states| && o.states[sw.variable].None? && last
    case IntegerValueExpected =>
      sw.switchType in {Long, LongLong} && sw.variable < |o.states| && !last &&
      var converted := library.strtol(o.arguments[n + 1]);
      |converted.rest| != 0 && o.states[sw.variable] == Some(IntegerValue(converted.value))
    case NumberExpected =>
      sw.switchType == Double && sw.variable < |o.states| && !last &&
      var converted := library.strtod(o.arguments[n + 1]);
      |converted.rest| != 0 && o.states[sw.variable] == Some(NumberValue(converted.value))
  }

  /** One pass of the main loop: it stops with an error, or goes on with new arguments, argument number and states. */
  datatype Next =
    | Stop(exitCode: ExitCode, states: seq<Option<Value>>)
    | Continue(arguments: seq<string>, n: nat, states: seq<Option<Value>>, token: Token)

  /** One pass of the main loop of cmdLineParse, on argument n. */
  function Step(arguments: seq<string>, n: nat, states: seq<Option<Value>>, switches: seq<Switch>, library: Library): (r: Next)
    requires ValidSwitches(switches, |states|) && n < |arguments|
    ensures |r.states| == |states|
    ensures r.Continue? ==> n <= r.n <= |r.arguments| && |r.arguments| - r.n < |arguments| - n
  {
    var a := arguments[n];
    var sw := Matched(switches, a);
    MatchedVariable(switches, |states|, a);
    match sw.switchType
    case End => Continue(arguments, n + 1, states, Skipped(a))
    case Help => Stop(HelpRequested, states)
    case Bool =>
      if states[sw.variable].Some? then Stop(DuplicateSwitch, states)
      else Continue(Delete(arguments, n), n, states[sw.variable := Some(BoolValue(sw.boolState))], Flag(a))
    case _ =>
      if states[sw.variable].Some? then Stop(DuplicateSwitch, states)
      else if n == |arguments| - 1 then Stop(ParameterRequired, states)
      else
        var t := Valued(a, arguments[n + 1]);
        var states' := states[sw.variable := Some(Stored(t, switches, library))];
        if !Accepted(sw.switchType, arguments[n + 1], library) then
          Stop(if sw.switchType == Double then NumberExpected else IntegerValueExpected, states')
        else Continue(Delete(Delete(arguments, n), n), n, states', t)
  }

  /**
   * A pass that goes on has consumed one token at argument n: the arguments
   * before n are kept, the token's arguments are the ones that were at n, a
   * skipped argument stays in argv and a switch and its parameter are
   * removed, and the token's value is stored into a state variable that was
   * unset.
   */
  lemma StepContinues(arguments: seq<string>, n: nat, states: seq<Option<Value>>, switches: seq<Switch>, library: Library)
    requires ValidSwitches(switches, |states|) && n < |arguments|
    requires Step(arguments, n, states, switches, library).Continue?
    ensures var r := Step(arguments, n, states, switches, library);
      r.arguments[..n] == arguments[..n] &&
      Arguments(r.token) + r.arguments[r.n..] == arguments[n..] &&
      Left(r.token) == r.arguments[n..r.n] &&
      Fits(r.token, switches, library) &&
      Free(r.token, states, switches) &&
      r.states == Store(r.token, states, switches, library)
  {
    var kind := Matched(switches, arguments[n]).switchType;
    MatchedVariable(switches, |states|, arguments[n]);
    if kind == End {
      assert arguments[n..] == [arguments[n]] + arguments[n + 1..];
    } else if kind == Bool {
      DeleteFront(arguments, n);
    } else {
      DeleteTwiceFront(arguments, n);
    }
  }

  lemma DeleteFront(arguments: seq<string>, n: nat)
    requires n < |arguments|
    ensures arguments[n..] == [arguments[n]] + Delete(arguments, n)[n..]
  {
  }

  lemma DeleteTwiceFront(arguments: seq<string>, n: nat)
    requires n + 1 < |arguments|
    ensures arguments[n..] == [arguments[n], arguments[n + 1]] + Delete(Delete(arguments, n), n)[n..]
  {
  }

  /**
   * A pass that stops has a cause at argument n, and it sets no state
   * variable except the one a failed conversion wrote, which was unset.
   */
  lemma StepStops(arguments: seq<string>, n: nat, states: seq<Option<Value>>, switches: seq<Switch>, library: Library)
    requires ValidSwitches(switches, |states|) && n < |arguments|
    requires Step(arguments, n, states, switches, library).Stop?
    ensures var r := Step(arguments, n, states, switches, library);
      r.exitCode != Successful &&
      ErrorCause(Outcome(r.exitCode, n, arguments, r.states), switches, library) &&
      (forall v :: 0 <= v < |states| && states[v].Some? ==> r.states[v] == states[v]) &&
      (r.exitCode !in {IntegerValueExpected, NumberExpected} ==> r.states == states)
  {
    MatchedVariable(switches, |states|, arguments[n]);
  }

  /**
   * Which pass stops, and with which exit code, read off the argument, its
   * switch and the state variables before the pass: a help switch asks for
   * help; a switch whose variable is already set is a duplicate; a valued
   * switch with an unset variable needs an argument after it; a parameter
   * strtol or strtod does not consume entirely is the matching conversion
   * error; everything else goes on.
   */
  lemma StepOutcome(arguments: seq<string>, n: nat, states: seq<Option<Value>>, switches: seq<Switch>, library: Library)
    requires ValidSwitches(switches, |states|) && n < |arguments|
    ensures var r := Step(arguments, n, states, switches, library);
      var sw := Matched(switches, arguments[n]);
      var valued := sw.switchType in {String, Long, LongLong, Double};
      var taken := sw.switchType !in {Help, End} && sw.variable < |states| && states[sw.variable].Some?;
      var last := n == |arguments| - 1;
      (sw.switchType == End ==> r.Continue?) &&
      (sw.switchType == Help <==> r.Stop? && r.exitCode == HelpRequested) &&
      (taken <==> r.Stop? && r.exitCode == DuplicateSwitch) &&
      (valued && !taken && last <==> r.Stop? && r.exitCode == ParameterRequired) &&
      ((valued && !taken && !last && sw.switchType != Double && !Accepted(sw.switchType, arguments[n + 1], library)) <==>
        (r.Stop? && r.exitCode == IntegerValueExpected)) &&
      ((valued && !taken && !last && sw.switchType == Double && !Accepted(sw.switchType, arguments[n + 1], library)) <==>
        (r.Stop? && r.exitCode == NumberExpected)) &&
      (r.Stop? ==> r.exitCode != Successful)
  {
    MatchedVariable(switches, |states|, arguments[n]);
  }

  /**
   * The main loop of cmdLineParse from argument n, on the arguments still in
   * argv and the state variables as they stand.
   */
  function Scan(arguments: seq<string>, n: nat, states: seq<Option<Value>>, switches: seq<Switch>, library: Library): Outcome
    requires ValidSwitches(switches, |states|)
    decreases |arguments| - n
  {
    if |arguments| <= n then Outcome(Successful, n, arguments, states)
    else
      match Step(arguments, n, states, switches, library)
      case Stop(e, states') => Outcome(e, n, arguments, states')
      case Continue(arguments', n', states', _) => Scan(arguments', n', states', switches, library)
  }

  /** The value cmdLineParse returns: 0 on success, the packed error otherwise. */
  function ExitValue(o: Outcome): nat
  {
    if o.exitCode == Successful then 0 else BuildExitCode(o.exitCode, o.argumentNumber)
  }

  /** cmdLineParse returns 0 exactly when no error occurred. */
  lemma ExitValueZero(o: Outcome)
    ensures ExitValue(o) == 0 <==> o.exitCode == Successful
  {
    if o.exitCode != Successful {
      ErrorIsNonzero(o.exitCode, o.argumentNumber);
    }
  }

  // ------------------------------------------------------ what a parse did

  /**
   * The walk from argument n keeps the arguments before n, stops at the end
   * of argv exactly when it succeeds and otherwise at the argument that
   * caused the error, and never overwrites a state variable that was
   * already set.
   */
  lemma {:induction false} ScanShape(arguments: seq<string>, n: nat, states: seq<Option<Value>>, switches: seq<Switch>, library: Library)
    requires ValidSwitches(switches, |states|) && n <= |arguments|
    ensures var o := Scan(arguments, n, states, switches, library);
      |o.states| == |states| &&
      n <= o.argumentNumber <= |o.arguments| &&
      o.arguments[..n] == arguments[..n] &&
      (o.exitCode == Successful <==> o.argumentNumber == |o.arguments|) &&
      (o.exitCode != Successful ==> ErrorCause(o, switches, library)) &&
      (forall v :: 0 <= v < |states| && states[v].Some? ==> o.states[v] == states[v])
    decreases |arguments| - n
  {
    if n < |arguments| {
      var next := Step(arguments, n, states, switches, library);
      if next.Continue? {
        StepContinues(arguments, n, states, switches, library);
        ScanShape(next.arguments, next.n, next.states, switches, library);
        assert next.arguments[..next.n][..n] == next.arguments[..n];
      } else {
        StepStops(arguments, n, states, switches, library);
      }
    }
  }

  /**
   * The walk from argument n, as a sequence of tokens: the arguments it went
   * past are exactly the tokens' arguments in order, followed by what is
   * left from the argument number on; argv keeps the skipped ones, in their
   * order; and, when no conversion failed, the state variables are the
   * tokens' values stored in turn into variables that were all unset.
   */
  lemma {:induction false} ScanTokens(arguments: seq<string>, n: nat, states: seq<Option<Value>>, switches: seq<Switch>, library: Library)
    returns (tokens: seq<Token>)
    requires ValidSwitches(switches, |states|) && n <= |arguments|
    ensures var o := Scan(arguments, n, states, switches, library);
      n <= o.argumentNumber <= |o.arguments| &&
      Flatten(tokens) + o.arguments[o.argumentNumber..] == arguments[n..] &&
      Kept(tokens) == o.arguments[n..o.argumentNumber] &&
      Classified(tokens, switches, library) &&
      Unset(tokens, states, switches) &&
      (o.exitCode !in {IntegerValueExpected, NumberExpected} ==> o.states == Assign(tokens, states, switches, library))
    decreases |arguments| - n
  {
    ScanShape(arguments, n, states, switches, library);
    if n == |arguments| || Step(arguments, n, states, switches, library).Stop? {
      tokens := [];
    } else {
      var next := Step(arguments, n, states, switches, library);
      var o := Scan(arguments, n, states, switches, library);
      StepContinues(arguments, n, states, switches, library);
      var rest := ScanTokens(next.arguments, next.n, next.states, switches, library);
      ScanShape(next.arguments, next.n, next.states, switches, library);
      tokens := [next.token] + rest;
      TokensCons(next.token, rest, states, switches, library);
      Compose(arguments, next.arguments, o.arguments, n, next.n, o.argumentNumber, Arguments(next.token), Flatten(rest));
    }
  }

  /**
   * A walk that ends in an error ends with the pass at its argument number
   * stopping: there are state variables `before` that pass, on which that
   * pass stops with the walk's exit code and states.  Every variable set
   * when the walk started is still set, with the same value, in `before`.
   */
  lemma {:induction false} ScanStop(arguments: seq<string>, n: nat, states: seq<Option<Value>>, switches: seq<Switch>, library: Library)
    returns (before: seq<Option<Value>>)
    requires ValidSwitches(switches, |states|) && n <= |arguments|
    ensures |before| == |states|
    ensures forall v :: 0 <= v < |states| && states[v].Some? ==> before[v] == states[v]
    ensures var o := Scan(arguments, n, states, switches, library);
      o.exitCode != Successful ==>
        o.argumentNumber < |o.arguments| &&
        Step(o.arguments, o.argumentNumber, before, switches, library) == Stop(o.exitCode, o.states)
    decreases |arguments| - n
  {
    before := states;
    if n < |arguments| {
      var next := Step(arguments, n, states, switches, library);
      if next.Continue? {
        StepContinues(arguments, n, states, switches, library);
        before := ScanStop(next.arguments, next.n, next.states, switches, library);
      }
    }
  }

  /**
   * The argument lists of two consecutive stretches of the walk join up:
   * the walk from n to n' then from n' to m over the lists before, between
   * and after.
   */
  lemma Compose(before: seq<string>, between: seq<string>, after: seq<string>, n: nat, n': nat, m: nat,
                first: seq<string>, second: seq<string>)
    requires n <= n' <= |between| && n <= |before| && n' <= m <= |after|
    requires first + between[n'..] == before[n..]
    requires second + after[m..] == between[n'..]
    requires after[..n'] == between[..n']
    ensures (first + second) + after[m..] == before[n..]
    ensures after[n..m] == between[n..n'] + after[n'..m]
  {
    assert after[n..n'] == after[..n'][n..];
    assert between[n..n'] == between[..n'][n..];
    assert after[n..m] == after[n..n'] + after[n'..m];
  }

  /** The token views of one token in front of others. */
  lemma TokensCons(t: Token, rest: seq<Token>, states: seq<Option<Value>>, switches: seq<Switch>, library: Library)
    requires Terminated(switches)
    ensures Flatten([t] + rest) == Arguments(t) + Flatten(rest)
    ensures Kept([t] + rest) == Left(t) + Kept(rest)
    ensures Assign([t] + rest, states, switches, library) == Assign(rest, Store(t, states, switches, library), switches, library)
    ensures Fits(t, switches, library) && Classified(rest, switches, library) ==> Classified([t] + rest, switches, library)
    ensures Free(t, states, switches) && Unset(rest, Store(t, states, switches, library), switches) ==> Unset([t] + rest, states, switches)
  {
    var tokens := [t] + rest;
    assert tokens[1..] == rest;
    if Free(t, states, switches) && Unset(rest, Store(t, states, switches, library), switches) {
      UnsetCons(t, rest, states, switches, library);
    }
  }

  lemma UnsetCons(t: Token, rest: seq<Token>, states: seq<Option<Value>>, switches: seq<Switch>, library: Library)
    requires Terminated(switches)
    requires Free(t, states, switches) && Unset(rest, Store(t, states, switches, library), switches)
    ensures Unset([t] + rest, states, switches)
  {
    var tokens := [t] + rest;
    var states' := Store(t, states, switches, library);
    forall j | 0 < j < |tokens|
      ensures Free(tokens[j], states, switches)
      ensures !t.Skipped? && !tokens[j].Skipped? ==> Variable(t, switches) != Variable(tokens[j], switches)
    {
      assert tokens[j] == rest[j - 1];
      assert Free(rest[j - 1], states', switches);
    }
    forall j, k | 0 < k < j < |tokens|
      ensures tokens[j] == rest[j - 1] && tokens[k] == rest[k - 1]
    {
    }
  }

  // -------------------------------------------------------- cmdLineParse

  /** The live entries of argv: each holds its argument string. */
  function Wrap(arguments: seq<string>): (r: seq<Option<string>>)
    ensures |r| == |arguments|
    ensures forall i :: 0 <= i < |r| ==> r[i] == Some(arguments[i])
  {
    seq(|arguments|, i requires 0 <= i < |arguments| => Some(arguments[i]))
  }

  /** deleteParameter on argv as the argument strings see it. */
  method RemoveArgument(argv: array<Option<string>>, count: nat, n: nat, ghost arguments: seq<string>) returns (count': nat)
    requires n < count <= argv.Length && argv[..count] == Wrap(arguments)
    modifies argv
    ensures count' == count - 1 && argv[..count'] == Wrap(Delete(arguments, n))
    ensures argv[count'] == None
    ensures forall i :: count <= i < argv.Length ==> argv[i] == old(argv[i])
  {
    count' := DeleteParameter(argv, count, n);
    assert Delete(Wrap(arguments), n) == Wrap(Delete(arguments, n));
    forall i | count <= i < argv.Length
      ensures argv[i] == old(argv[i])
    {
      assert argv[count..][i - count] == old(argv[count..])[i - count];
    }
  }

  /**
   * The two deleteParameter calls that take a valued switch and its
   * parameter out of argv.
   */
  method RemoveSwitchAndParameter(argv: array<Option<string>>, count: nat, n: nat, ghost arguments: seq<string>) returns (count': nat)
    requires n + 1 < count <= argv.Length && argv[..count] == Wrap(arguments)
    modifies argv
    ensures count' == count - 2 && argv[..count'] == Wrap(Delete(Delete(arguments, n), n))
    ensures argv[count'] == None && argv[count' + 1] == None
    ensures forall i :: count <= i < argv.Length ==> argv[i] == old(argv[i])
  {
    var middle := RemoveArgument(argv, count, n, arguments);
    count' := RemoveArgument(argv, middle, n, Delete(arguments, n));
  }

  /** What a pass tells the loop, against what Step says: the exit code, the arguments left and the next argument number. */
  ghost predicate Reports(r: Next, exitCode: ExitCode, n: nat, n': nat, arguments: seq<string>, arguments': seq<string>)
  {
    (r.Stop? ==> exitCode == r.exitCode && arguments' == arguments && n' == n) &&
    (r.Continue? ==> exitCode == Successful && arguments' == r.arguments && n' == r.n)
  }

  /** The CMDLINE_BOOL case of the main loop. */
  method ParseBool(argv: array<Option<string>>, count: nat, n: nat, switches: seq<Switch>, index: nat, states: array<Option<Value>>,
                   library: Library, ghost arguments: seq<string>)
    returns (exitCode: ExitCode, count': nat, ghost arguments': seq<string>)
    requires ValidSwitches(switches, states.Length)
    requires n < count <= argv.Length && argv[..count] == Wrap(arguments)
    requires index == MatchFrom(switches, arguments[n], 0) && switches[index].switchType == Bool
    modifies argv, states
    ensures var r := Step(arguments, n, old(states[..]), switches, library);
      states[..] == r.states && Reports(r, exitCode, n, n, arguments, arguments') &&
      count' == |arguments'| <= count && argv[..count'] == Wrap(arguments') &&
      (forall i :: count' <= i < count ==> argv[i] == None) &&
      (forall i :: count <= i < argv.Length ==> argv[i] == old(argv[i]))
  {
    var sw := switches[index];
    MatchedVariable(switches, states.Length, arguments[n]);
    exitCode, count', arguments' := Successful, count, arguments;
    if states[sw.variable].Some? {
      exitCode := DuplicateSwitch;
    } else {
      states[sw.variable] := Some(BoolValue(sw.boolState));
      count' := RemoveArgument(argv, count, n, arguments);
      arguments' := Delete(arguments, n);
    }
  }

  /** The CMDLINE_STRING, CMDLINE_LONG, CMDLINE_LONG_LONG and CMDLINE_DOUBLE cases of the main loop. */
  method ParseValued(argv: array<Option<string>>, count: nat, n: nat, switches: seq<Switch>, index: nat, states: array<Option<Value>>,
                     library: Library, ghost arguments: seq<string>)
    returns (exitCode: ExitCode, count': nat, ghost arguments': seq<string>)
    requires ValidSwitches(switches, states.Length)
    requires n < count <= argv.Length && argv[..count] == Wrap(arguments)
    requires index == MatchFrom(switches, arguments[n], 0) && switches[index].switchType in {String, Long, LongLong, Double}
    modifies argv, states
    ensures var r := Step(arguments, n, old(states[..]), switches, library);
      states[..] == r.states && Reports(r, exitCode, n, n, arguments, arguments') &&
      count' == |arguments'| <= count && argv[..count'] == Wrap(arguments') &&
      (forall i :: count' <= i < count ==> argv[i] == None) &&
      (forall i :: count <= i < argv.Length ==> argv[i] == old(argv[i]))
  {
    var sw := switches[index];
    MatchedVariable(switches, states.Length, arguments[n]);
    exitCode, count', arguments' := Successful, count, arguments;
    if states[sw.variable].Some? {
      exitCode := DuplicateSwitch;
    } else if n == count - 1 {
      exitCode := ParameterRequired;
    } else {
      assert argv[..count][n + 1] == Some(arguments[n + 1]);
      var parameter := argv[n + 1].value;
      var accepted := true;
      if sw.switchType == String {
        states[sw.variable] := Some(StringValue(parameter));
      } else if sw.switchType == Double {
        var converted := library.strtod(parameter);
        states[sw.variable] := Some(NumberValue(converted.value));
        if |converted.rest| != 0 {
          exitCode, accepted := NumberExpected, false;
        }
      } else {
        var converted := library.strtol(parameter);
        states[sw.variable] := Some(IntegerValue(converted.value));
        if |converted.rest| != 0 {
          exitCode, accepted := IntegerValueExpected, false;
        }
      }
      if accepted {
        count' := RemoveSwitchAndParameter(argv, count, n, arguments);
        arguments' := Delete(Delete(arguments, n), n);
      }
    }
  }

  /**
   * One pass of the main loop of cmdLineParse on argument n: it does what
   * Step says, on argv and on the state variables.
   */
  method ParseArgument(argv: array<Option<string>>, count: nat, n: nat, switches: seq<Switch>, states: array<Option<Value>>,
                       library: Library, ghost arguments: seq<string>)
    returns (exitCode: ExitCode, count': nat, n': nat, ghost arguments': seq<string>)
    requires ValidSwitches(switches, states.Length)
    requires n < count <= argv.Length && argv[..count] == Wrap(arguments)
    modifies argv, states
    ensures var r := Step(arguments, n, old(states[..]), switches, library);
      states[..] == r.states && Reports(r, exitCode, n, n', arguments, arguments') &&
      count' == |arguments'| <= count && argv[..count'] == Wrap(arguments') &&
      (forall i :: count' <= i < count ==> argv[i] == None) &&
      (forall i :: count <= i < argv.Length ==> argv[i] == old(argv[i]))
  {
    assert argv[..count][n] == Some(arguments[n]);
    var index := FindSwitch(switches, argv[n].value);
    var switchType := switches[index].switchType;
    n' := n;
    if switchType == End {
      exitCode, count', n', arguments' := Successful, count, n + 1, arguments;
    } else if switchType == Help {
      exitCode, count', arguments' := HelpRequested, count, arguments;
    } else if switchType == Bool {
      exitCode, count', arguments' := ParseBool(argv, count, n, switches, index, states, library, arguments);
    } else {
      exitCode, count', arguments' := ParseValued(argv, count, n, switches, index, states, library, arguments);
    }
  }

  /** The facts the main loop of cmdLineParse carries from pass to pass. */
  lemma ScanPass(arguments: seq<string>, n: nat, states: seq<Option<Value>>, switches: seq<Switch>, library: Library,
                 exitCode: ExitCode, n': nat, arguments': seq<string>, states': seq<Option<Value>>)
    requires ValidSwitches(switches, |states|) && n < |arguments|
    requires var r := Step(arguments, n, states, switches, library);
      states' == r.states && Reports(r, exitCode, n, n', arguments, arguments')
    ensures |states'| == |states|
    ensures exitCode == Successful ==>
      n' <= |arguments'| && |arguments'| - n' < |arguments| - n &&
      Scan(arguments', n', states', switches, library) == Scan(arguments, n, states, switches, library)
    ensures exitCode != Successful ==>
      arguments' == arguments && n' == n &&
      Outcome(exitCode, n, arguments, states') == Scan(arguments, n, states, switches, library)
  {
    if Step(arguments, n, states, switches, library).Stop? {
      StepStops(arguments, n, states, switches, library);
    }
  }

  /**
   * cmdLineParse: the state variables of the switches are reset, then the
   * main loop runs from argument 1.  argv and its count end as the walk
   * leaves them, the entries freed at the end of the list are NULL, the
   * state variables are the walk's, and the result is 0 or the packed
   * error.
   */
  method CmdLineParse(argv: array<Option<string>>, argumentCount: nat, switches: seq<Switch>, states: array<Option<Value>>,
                      library: Library, ghost arguments: seq<string>)
    returns (count: nat, exitValue: nat)
    requires argumentCount <= argv.Length && argv[..argumentCount] == Wrap(arguments)
    requires ValidSwitches(switches, states.Length)
    modifies argv, states
    ensures var o := Scan(arguments, 1, ResetStates(switches, old(states[..])), switches, library);
      count == |o.arguments| <= argumentCount && argv[..count] == Wrap(o.arguments) &&
      (forall i :: count <= i < argumentCount ==> argv[i] == None) &&
      (forall i :: argumentCount <= i < argv.Length ==> argv[i] == old(argv[i])) &&
      states[..] == o.states &&
      exitValue == ExitValue(o)
  {
    ResetStateVariables(switches, states);
    ghost var initial := states[..];
    ghost var o := Scan(arguments, 1, initial, switches, library);
    ghost var original := argv[..];
    count := argumentCount;
    var argumentNumber: nat := 1;
    var exitCode := Successful;
    ghost var live := arguments;
    while argumentNumber < count && exitCode == Successful
      invariant count == |live| <= argumentCount && argumentNumber <= count + 1 && argv[..count] == Wrap(live)
      invariant forall i :: count <= i < argumentCount ==> argv[i] == None
      invariant forall i :: argumentCount <= i < argv.Length ==> argv[i] == original[i]
      invariant exitCode == Successful ==> Scan(live, argumentNumber, states[..], switches, library) == o
      invariant exitCode != Successful ==> Outcome(exitCode, argumentNumber, live, states[..]) == o
      decreases count + 1 - argumentNumber, if exitCode == Successful then 1 else 0
    {
      ghost var before := states[..];
      var count' := count;
      var next: nat;
      ghost var live';
      exitCode, count', next, live' := ParseArgument(argv, count, argumentNumber, switches, states, library, live);
      ScanPass(live, argumentNumber, before, switches, library, exitCode, next, live', states[..]);
      count, argumentNumber, live := count', next, live';
    }
    if exitCode == Successful {
      exitValue := 0;
    } else {
      exitValue := BuildExitCode(exitCode, argumentNumber);
    }
  }
}
