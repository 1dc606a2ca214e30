/** Windows command-line encoding and decoding (`src/windows_command_line.rs`). */
module CommandLine {
  import opened Base
  import opened Unicode

  const MAX_COMMAND_LINE_UNITS: nat := 32767

  const BACKSLASH: Unit16 := 0x5c
  const QUOTE: Unit16 := 0x22
  const SPACE: Unit16 := 0x20

  type Units = seq<Unit16>

  datatype CommandLineError = EmptyProgram | ProgramContainsQuote | InteriorNul | TooLong

  predicate NeedsQuotes(argument: Units) {
    argument == [] || exists i | 0 <= i < |argument| :: IsSpecial(argument[i])
  }

  predicate IsSpecial(u: Unit16) {
    9 <= u <= 13 || u == SPACE || u == QUOTE
  }

  predicate IsBlank(u: Unit16) {
    u == 9 || u == SPACE
  }

  function Backslashes(n: nat): (s: Units)
    ensures |s| == n && forall i | 0 <= i < n :: s[i] == BACKSLASH
  {
    seq(n, _ => BACKSLASH)
  }

  /* ----- The ideal text, without a length bound ----- */

  /** The inside of a quoted argument, with `pending` backslashes not yet written. */
  function QuotedBody(argument: Units, pending: nat): Units {
    if argument == [] then Backslashes(2 * pending)
    else if argument[0] == BACKSLASH then QuotedBody(argument[1..], pending + 1)
    else if argument[0] == QUOTE then Backslashes(2 * pending + 1) + [QUOTE] + QuotedBody(argument[1..], 0)
    else Backslashes(pending) + [argument[0]] + QuotedBody(argument[1..], 0)
  }

  function Quoted(argument: Units): Units {
    if NeedsQuotes(argument) then [QUOTE] + QuotedBody(argument, 0) + [QUOTE] else argument
  }

  function Trailing(arguments: seq<Units>): Units {
    if arguments == [] then [] else [SPACE] + Quoted(arguments[0]) + Trailing(arguments[1..])
  }

  /** The program and its arguments separated by single spaces, without the terminator. */
  function Line(program: Units, arguments: seq<Units>): Units {
    Quoted(program) + Trailing(arguments)
  }

  /* ----- Decoding ----- */

  function LeadingBackslashes(s: Units): (n: nat)
    ensures n <= |s| && s[..n] == Backslashes(n)
    ensures n < |s| ==> s[n] != BACKSLASH
  {
    if s == [] || s[0] != BACKSLASH then 0
    else
      var n := LeadingBackslashes(s[1..]);
      assert s[..n + 1] == [BACKSLASH] + s[1..][..n];
      n + 1
  }

  function Before(front: Units, rest: Option<Units>): Option<Units> {
    match rest
    case None => None
    case Some(r) => Some(front + r)
  }

  /** What `decode_single` computes from a position where the quote state is `quoted`. */
  function Decode(s: Units, quoted: bool): Option<Units>
    decreases |s|
  {
    if s == [] then if quoted then None else Some([])
    else if !quoted && IsBlank(s[0]) then None
    else
      var n := LeadingBackslashes(s);
      if n == |s| then Before(Backslashes(n), Decode([], quoted))
      else if s[n] != QUOTE then Before(Backslashes(n) + [s[n]], Decode(s[n + 1..], quoted))
      else if n % 2 == 0 then Before(Backslashes(n / 2), Decode(s[n + 1..], !quoted))
      else Before(Backslashes(n / 2) + [QUOTE], Decode(s[n + 1..], quoted))
  }

  lemma RunOfBackslashes(n: nat, u: Unit16, rest: Units)
    requires u != BACKSLASH
    ensures LeadingBackslashes(Backslashes(n) + [u] + rest) == n
    ensures (Backslashes(n) + [u] + rest)[n + 1..] == rest
  {
    var s := Backslashes(n) + [u] + rest;
    var m := LeadingBackslashes(s);
    assert s[n] == u;
    assert forall i | 0 <= i < n :: s[i] == BACKSLASH;
    assert forall i | 0 <= i < m :: s[..m][i] == s[i];
  }

  lemma DecodeRunQuote(n: nat, rest: Units, quoted: bool)
    ensures Decode(Backslashes(n) + [QUOTE] + rest, quoted) ==
            if n % 2 == 0 then Before(Backslashes(n / 2), Decode(rest, !quoted))
            else Before(Backslashes(n / 2) + [QUOTE], Decode(rest, quoted))
  {
    var s := Backslashes(n) + [QUOTE] + rest;
    RunOfBackslashes(n, QUOTE, rest);
    assert s[n] == QUOTE && (n > 0 ==> s[0] == BACKSLASH);
  }

  lemma DecodeRunOther(n: nat, u: Unit16, rest: Units)
    requires u != QUOTE && u != BACKSLASH
    ensures Decode(Backslashes(n) + [u] + rest, true) == Before(Backslashes(n) + [u], Decode(rest, true))
  {
    var s := Backslashes(n) + [u] + rest;
    RunOfBackslashes(n, u, rest);
    assert s[n] == u;
  }

  lemma EscapeOfQuote(pending: nat, rest: Units, tail: Units)
    requires Decode(tail, true) == Some(rest)
    ensures Decode(Backslashes(2 * pending + 1) + [QUOTE] + tail, true) == Some(Backslashes(pending) + ([QUOTE] + rest))
  {
    DecodeRunQuote(2 * pending + 1, tail, true);
    assert Backslashes(pending) + [QUOTE] + rest == Backslashes(pending) + ([QUOTE] + rest);
  }

  lemma NoEscape(pending: nat, u: Unit16, rest: Units, tail: Units)
    requires u != QUOTE && u != BACKSLASH
    requires Decode(tail, true) == Some(rest)
    ensures Decode(Backslashes(pending) + [u] + tail, true) == Some(Backslashes(pending) + ([u] + rest))
  {
    DecodeRunOther(pending, u, tail);
    assert Backslashes(pending) + [u] + rest == Backslashes(pending) + ([u] + rest);
  }

  lemma ClosingQuote(pending: nat)
    ensures Decode(Backslashes(2 * pending) + [QUOTE], true) == Some(Backslashes(pending) + [])
  {
    DecodeRunQuote(2 * pending, [], true);
    assert Backslashes(2 * pending) + [QUOTE] + [] == Backslashes(2 * pending) + [QUOTE];
  }

  /** Inside quotes every escape is undone, whatever run of backslashes precedes it. */
  lemma {:induction false} DecodeOfQuotedBody(argument: Units, pending: nat)
    ensures Decode(QuotedBody(argument, pending) + [QUOTE], true) == Some(Backslashes(pending) + argument)
    decreases |argument|
  {
    hide Decode;
    if argument == [] {
      ClosingQuote(pending);
    } else {
      var u, rest := argument[0], argument[1..];
      assert argument == [u] + rest;
      if u == BACKSLASH {
        DecodeOfQuotedBody(rest, pending + 1);
        assert Backslashes(pending + 1) + rest == Backslashes(pending) + argument;
      } else {
        var tail := QuotedBody(rest, 0) + [QUOTE];
        DecodeOfQuotedBody(rest, 0);
        assert Backslashes(0) + rest == rest;
        if u == QUOTE {
          EscapeOfQuote(pending, rest, tail);
          assert QuotedBody(argument, pending) + [QUOTE] == Backslashes(2 * pending + 1) + [QUOTE] + tail;
        } else {
          NoEscape(pending, u, rest, tail);
          assert QuotedBody(argument, pending) + [QUOTE] == Backslashes(pending) + [u] + tail;
        }
      }
    }
  }

  lemma {:induction false} DecodeOfPlain(s: Units)
    requires s == [] || !NeedsQuotes(s)
    ensures Decode(s, false) == Some(s)
    decreases |s|
  {
    if s != [] {
      var n := LeadingBackslashes(s);
      assert !IsSpecial(s[0]);
      if n == |s| {
        assert s == Backslashes(n) + [];
      } else {
        assert !IsSpecial(s[n]);
        var tail := s[n + 1..];
        assert forall i | 0 <= i < |tail| :: tail[i] == s[n + 1 + i];
        DecodeOfPlain(s[n + 1..]);
        assert s == Backslashes(n) + [s[n]] + s[n + 1..];
      }
    }
  }

  /** Quoting then decoding one argument is the identity, for every argument. */
  lemma DecodeOfQuoted(argument: Units)
    ensures Decode(Quoted(argument), false) == Some(argument)
  {
    if NeedsQuotes(argument) {
      var inner := QuotedBody(argument, 0) + [QUOTE];
      assert Quoted(argument) == Backslashes(0) + [QUOTE] + inner;
      DecodeRunQuote(0, inner, false);
      DecodeOfQuotedBody(argument, 0);
      assert Backslashes(0) + (Backslashes(0) + argument) == argument;
    } else {
      DecodeOfPlain(argument);
    }
  }

  method DecodeSingle(encoded: Units) returns (r: Option<Units>)
    ensures r == Decode(encoded, false)
  {
    hide Decode, LeadingBackslashes;
    var output: Units := [];
    var index, quoted := 0, false;
    assert encoded[0..] == encoded;
    NothingBefore(Decode(encoded, false));
    while index < |encoded|
      invariant index <= |encoded|
      invariant Decode(encoded, false) == Before(output, Decode(encoded[index..], quoted))
    {
      if !quoted && IsBlank(encoded[index]) {
        DecodeBlank(encoded[index..]);
        return None;
      }
      ghost var start, state := index, quoted;
      ghost var front := output;
      var backslashes := 0;
      while index < |encoded| && encoded[index] == BACKSLASH
        invariant start + backslashes == index <= |encoded|
        invariant forall i | start <= i < index :: encoded[i] == BACKSLASH
      {
        backslashes := backslashes + 1;
        index := index + 1;
      }
      DecodeRun(encoded[start..], state, backslashes);
      if index < |encoded| && encoded[index] == QUOTE {
        output := output + Backslashes(backslashes / 2);
        if backslashes % 2 == 0 {
          quoted := !quoted;
        } else {
          output := output + [QUOTE];
        }
        index := index + 1;
      } else {
        output := output + Backslashes(backslashes);
        if index < |encoded| {
          output := output + [encoded[index]];
          index := index + 1;
        }
      }
      assert index == |encoded| ==> encoded[index..] == [];
      assert encoded[index..] == encoded[start..][index - start..];
      ghost var piece := output[|front|..];
      assert output == front + piece;
      assert Decode(encoded[start..], state) == Before(piece, Decode(encoded[index..], quoted)) by {
        ghost var n := backslashes;
        assert piece == Backslashes(n / 2) || piece == Backslashes(n / 2) + [QUOTE]
               || piece == Backslashes(n) || piece == Backslashes(n) + [encoded[index - 1]];
      }
      BeforeBefore(front, piece, Decode(encoded[index..], quoted));
    }
    assert encoded[index..] == [];
    DecodeEnd(quoted, output);
    r := if quoted then None else Some(output);
  }

  lemma NothingBefore(rest: Option<Units>)
    ensures Before([], rest) == rest
  {
    if rest.Some? {
      assert [] + rest.value == rest.value;
    }
  }

  lemma DecodeEnd(quoted: bool, output: Units)
    ensures Before(output, Decode([], quoted)) == if quoted then None else Some(output)
  {
    assert output + [] == output;
  }

  lemma DecodeBlank(s: Units)
    requires s != [] && IsBlank(s[0])
    ensures Decode(s, false) == None
  {
  }

  /** One turn of the decoder: a run of backslashes and the unit that ends it. */
  lemma DecodeRun(s: Units, quoted: bool, n: nat)
    requires s != [] && (quoted || !IsBlank(s[0]))
    requires n <= |s| && (forall i | 0 <= i < n :: s[i] == BACKSLASH) && (n < |s| ==> s[n] != BACKSLASH)
    ensures Decode(s, quoted) ==
            if n == |s| then Before(Backslashes(n), Decode([], quoted))
            else if s[n] != QUOTE then Before(Backslashes(n) + [s[n]], Decode(s[n + 1..], quoted))
            else if n % 2 == 0 then Before(Backslashes(n / 2), Decode(s[n + 1..], !quoted))
            else Before(Backslashes(n / 2) + [QUOTE], Decode(s[n + 1..], quoted))
  {
    RunIs(s, n);
  }

  /** The run the inner loop counted is the one the decoder's definition means. */
  lemma RunIs(s: Units, n: nat)
    requires n <= |s| && (forall i | 0 <= i < n :: s[i] == BACKSLASH) && (n < |s| ==> s[n] != BACKSLASH)
    ensures LeadingBackslashes(s) == n
  {
    var m := LeadingBackslashes(s);
    assert forall i | 0 <= i < m :: s[..m][i] == s[i];
  }

  lemma BeforeBefore(a: Units, b: Units, rest: Option<Units>)
    ensures Before(a, Before(b, rest)) == Before(a + b, rest)
  {
    if rest.Some? {
      assert a + (b + rest.value) == a + b + rest.value;
    }
  }

  /* ----- Encoding under the length bound ----- */

  /** `usize` saturation; a saturated count is refused like any other count above the bound. */
  const USIZE_MAX: nat := U64_MAX

  function SaturatingMul2(n: nat): nat {
    Min(2 * n, USIZE_MAX)
  }

  function SaturatingInc(n: nat): nat {
    Min(n + 1, USIZE_MAX)
  }

  class Encoder {
    var output: Units

    constructor ()
      ensures output == []
    {
      output := [];
    }

    method Push(unit: Unit16) returns (ok: bool)
      requires |output| <= MAX_COMMAND_LINE_UNITS
      modifies this
      ensures ok <==> |old(output)| + 1 <= MAX_COMMAND_LINE_UNITS
      ensures output == if ok then old(output) + [unit] else old(output)
    {
      if |output| >= MAX_COMMAND_LINE_UNITS {
        return false;
      }
      output := output + [unit];
      ok := true;
    }

    method Extend(units: Units) returns (ok: bool)
      requires |output| <= MAX_COMMAND_LINE_UNITS
      modifies this
      ensures ok <==> |old(output)| + |units| <= MAX_COMMAND_LINE_UNITS
      ensures |output| <= MAX_COMMAND_LINE_UNITS && (ok ==> output == old(output) + units)
    {
      for i := 0 to |units|
        invariant output == old(output) + units[..i] && |output| <= MAX_COMMAND_LINE_UNITS
      {
        ok := Push(units[i]);
        if !ok {
          return;
        }
        assert units[..i + 1] == units[..i] + [units[i]];
      }
      assert units[..|units|] == units;
      ok := true;
    }

    method Repeat(count: nat) returns (ok: bool)
      requires |output| <= MAX_COMMAND_LINE_UNITS
      modifies this
      ensures ok <==> |old(output)| + count <= MAX_COMMAND_LINE_UNITS
      ensures output == if ok then old(output) + Backslashes(count) else old(output)
    {
      if count > MAX_COMMAND_LINE_UNITS - |output| {
        return false;
      }
      output := output + Backslashes(count);
      ok := true;
    }

    /** Appends the quoted argument, or reports the first obstacle met while doing so. */
    method AppendQuoted(argument: Units) returns (r: Result<Unit, CommandLineError>)
      requires |output| <= MAX_COMMAND_LINE_UNITS
      modifies this
      ensures |output| <= MAX_COMMAND_LINE_UNITS
      ensures r.Ok? <==> 0 !in argument && |old(output)| + |Quoted(argument)| <= MAX_COMMAND_LINE_UNITS
      ensures r.Ok? ==> output == old(output) + Quoted(argument)
      ensures r == Err(InteriorNul) <==> 0 in argument
      ensures r.Err? ==> r.error.InteriorNul? || r.error.TooLong?
    {
      hide QuotedBody;
      if 0 in argument {
        return Err(InteriorNul);
      }
      if !NeedsQuotes(argument) {
        var ok := Extend(argument);
        return if ok then Ok(Unit) else Err(TooLong);
      }
      var ok := Push(QUOTE);
      if !ok {
        return Err(TooLong);
      }
      ok := AppendBody(argument);
      if ok {
        ok := Push(QUOTE);
      }
      assert ok ==> output == old(output) + Quoted(argument);
      r := if ok then Ok(Unit) else Err(TooLong);
    }

    /** A space and the quoted form for each argument. */
    method AppendArguments(arguments: seq<Units>) returns (r: Result<Unit, CommandLineError>)
      requires |output| <= MAX_COMMAND_LINE_UNITS
      modifies this
      ensures |output| <= MAX_COMMAND_LINE_UNITS
      ensures r.Ok? ==> output == old(output) + Trailing(arguments) && AllNulFree(arguments)
      ensures r.Err? ==> r.error.TooLong? || (r.error.InteriorNul? && !AllNulFree(arguments))
      ensures AllNulFree(arguments) ==> (r.Ok? <==> |old(output)| + |Trailing(arguments)| <= MAX_COMMAND_LINE_UNITS)
    {
      hide Quoted, Trailing;
      ghost var target := old(output) + Trailing(arguments);
      TailEnd();
      assert arguments[0..] == arguments;
      for i := 0 to |arguments|
        invariant |output| <= MAX_COMMAND_LINE_UNITS
        invariant target == output + Trailing(arguments[i..])
        invariant AllNulFree(arguments[..i])
      {
        TailStep(arguments, i);
        ghost var rest := Trailing(arguments[i + 1..]);
        assert target == output + [SPACE] + Quoted(arguments[i]) + rest;
        assert arguments[..i + 1] == arguments[..i] + [arguments[i]];
        var ok := Push(SPACE);
        if !ok {
          return Err(TooLong);
        }
        r := AppendQuoted(arguments[i]);
        if r.Err? {
          return;
        }
      }
      assert arguments[..|arguments|] == arguments && arguments[|arguments|..] == [];
      r := Ok(Unit);
    }

    method AppendBody(argument: Units) returns (ok: bool)
      requires |output| <= MAX_COMMAND_LINE_UNITS
      modifies this
      ensures ok <==> |old(output)| + |QuotedBody(argument, 0)| <= MAX_COMMAND_LINE_UNITS
      ensures |output| <= MAX_COMMAND_LINE_UNITS
      ensures ok ==> output == old(output) + QuotedBody(argument, 0)
    {
      hide QuotedBody, Backslashes;
      ghost var target := old(output) + QuotedBody(argument, 0);
      var backslashes := 0;
      assert argument[0..] == argument;
      for i := 0 to |argument|
        invariant |output| <= MAX_COMMAND_LINE_UNITS
        invariant backslashes <= i
        invariant target == output + QuotedBody(argument[i..], backslashes)
      {
        var unit := argument[i];
        ghost var rest := argument[i + 1..];
        assert argument[i..][0] == unit && argument[i..][1..] == rest;
        BodyStep(argument[i..], backslashes);
        if unit == BACKSLASH {
          backslashes := backslashes + 1;
          continue;
        }
        assert target == output + Backslashes(if unit == QUOTE then 2 * backslashes + 1 else backslashes)
                         + [unit] + QuotedBody(rest, 0);
        if unit == QUOTE {
          ok := Repeat(SaturatingInc(SaturatingMul2(backslashes)));
        } else {
          ok := Repeat(backslashes);
        }
        if !ok {
          return;
        }
        ok := Push(unit);
        if !ok {
          return;
        }
        backslashes := 0;
      }
      BodyEnd(argument[|argument|..], backslashes);
      ok := Repeat(SaturatingMul2(backslashes));
    }
  }

  lemma BodyStep(argument: Units, pending: nat)
    requires argument != []
    ensures QuotedBody(argument, pending) ==
            if argument[0] == BACKSLASH then QuotedBody(argument[1..], pending + 1)
            else Backslashes(if argument[0] == QUOTE then 2 * pending + 1 else pending)
                 + [argument[0]] + QuotedBody(argument[1..], 0)
  {
  }

  lemma BodyEnd(argument: Units, pending: nat)
    requires argument == []
    ensures QuotedBody(argument, pending) == Backslashes(2 * pending)
  {
  }

  ghost predicate NulFree(program: Units, arguments: seq<Units>) {
    0 !in program && AllNulFree(arguments)
  }

  ghost predicate AllNulFree(arguments: seq<Units>) {
    forall i | 0 <= i < |arguments| :: 0 !in arguments[i]
  }

  /**
   Every outcome, exactly: a NUL-free command line is refused for its length if
   and only if its ideal text and terminator exceed the bound.
   */
  method Encode(program: Units, arguments: seq<Units>) returns (r: Result<Units, CommandLineError>)
    ensures r == Err(EmptyProgram) <==> program == []
    ensures r == Err(ProgramContainsQuote) <==> QUOTE in program
    ensures r.Ok? ==> r.value == Line(program, arguments) + [0] && NulFree(program, arguments)
    ensures r.Ok? ==> |r.value| <= 32767
    ensures r == Err(InteriorNul) ==> !NulFree(program, arguments)
    ensures program != [] && QUOTE !in program && NulFree(program, arguments) ==>
              (r == Err(TooLong) <==> |Line(program, arguments)| + 1 > 32767)
  {
    hide Quoted, Trailing, AllNulFree;
    if program == [] {
      return Err(EmptyProgram);
    }
    if QUOTE in program {
      return Err(ProgramContainsQuote);
    }
    var encoder := new Encoder();
    var step := encoder.AppendQuoted(program);
    if step.Err? {
      return Err(step.error);
    }
    step := encoder.AppendArguments(arguments);
    if step.Err? {
      return Err(step.error);
    }
    var ok := encoder.Push(0);
    if !ok {
      return Err(TooLong);
    }
    assert encoder.output == Line(program, arguments) + [0];
    r := Ok(encoder.output);
  }

  lemma TailEnd()
    ensures Trailing([]) == []
  {
  }

  lemma TailStep(arguments: seq<Units>, i: nat)
    requires i < |arguments|
    ensures Trailing(arguments[i..]) == [SPACE] + Quoted(arguments[i]) + Trailing(arguments[i + 1..])
  {
    hide Quoted;
    assert arguments[i..][1..] == arguments[i + 1..];
  }

  /* ----- Splitting a whole command line ----- */

  /** Inside quotes or not, and whether an odd run of backslashes has just been read. */
  datatype State = State(quoted: bool, escaped: bool)

  const OUTSIDE := State(false, false)

  function Next(state: State, u: Unit16): State {
    if u == BACKSLASH then State(state.quoted, !state.escaped)
    else if u == QUOTE && !state.escaped then State(!state.quoted, false)
    else State(state.quoted, false)
  }

  /** The pieces between unquoted blanks, still quoted; `current` is the piece being read. */
  function Pieces(s: Units, state: State, current: Units): seq<Units>
    decreases |s|
  {
    if s == [] then [current]
    else if !state.quoted && IsBlank(s[0]) then [current] + Pieces(s[1..], OUTSIDE, [])
    else Pieces(s[1..], Next(state, s[0]), current + [s[0]])
  }

  /** The state after text with no unquoted blank, or None when there is one. */
  function Scan(s: Units, state: State): Option<State>
    decreases |s|
  {
    if s == [] then Some(state)
    else if !state.quoted && IsBlank(s[0]) then None
    else Scan(s[1..], Next(state, s[0]))
  }

  lemma {:induction false} PiecesAfter(s: Units, rest: Units, state: State, current: Units)
    requires Scan(s, state).Some?
    ensures Pieces(s + rest, state, current) == Pieces(rest, Scan(s, state).value, current + s)
    decreases |s|
  {
    if s == [] {
      assert s + rest == rest && current + s == current;
    } else {
      assert (s + rest)[1..] == s[1..] + rest;
      PiecesAfter(s[1..], rest, Next(state, s[0]), current + [s[0]]);
      assert current + [s[0]] + s[1..] == current + s;
    }
  }

  lemma {:induction false} ScanAfter(s: Units, rest: Units, state: State)
    requires Scan(s, state).Some?
    ensures Scan(s + rest, state) == Scan(rest, Scan(s, state).value)
    decreases |s|
  {
    if s == [] {
      assert s + rest == rest;
    } else {
      assert (s + rest)[1..] == s[1..] + rest;
      ScanAfter(s[1..], rest, Next(state, s[0]));
    }
  }

  lemma {:induction false} ScanBackslashes(n: nat, state: State)
    ensures Scan(Backslashes(n), state) == Some(State(state.quoted, state.escaped != (n % 2 == 1)))
    decreases n
  {
    if n > 0 {
      assert Backslashes(n)[1..] == Backslashes(n - 1);
      ScanBackslashes(n - 1, Next(state, BACKSLASH));
    }
  }

  const INSIDE := State(true, false)

  lemma ScanUnit(n: nat, u: Unit16)
    requires u != BACKSLASH && (u == QUOTE ==> n % 2 == 1)
    ensures Scan(Backslashes(n) + [u], INSIDE) == Some(INSIDE)
  {
    ScanBackslashes(n, INSIDE);
    ScanAfter(Backslashes(n), [u], INSIDE);
    assert [u][1..] == [];
  }

  lemma ScanClosing(n: nat)
    requires n % 2 == 0
    ensures Scan(Backslashes(n) + [QUOTE], INSIDE) == Some(OUTSIDE)
  {
    ScanBackslashes(n, INSIDE);
    ScanAfter(Backslashes(n), [QUOTE], INSIDE);
    assert [QUOTE][1..] == [];
  }

  lemma {:induction false} ScanQuotedBody(argument: Units, pending: nat)
    ensures Scan(QuotedBody(argument, pending) + [QUOTE], INSIDE) == Some(OUTSIDE)
    decreases |argument|
  {
    hide Scan;
    if argument == [] {
      ScanClosing(2 * pending);
    } else if argument[0] == BACKSLASH {
      ScanQuotedBody(argument[1..], pending + 1);
    } else {
      var n := if argument[0] == QUOTE then 2 * pending + 1 else pending;
      var front, tail := Backslashes(n) + [argument[0]], QuotedBody(argument[1..], 0) + [QUOTE];
      ScanUnit(n, argument[0]);
      ScanQuotedBody(argument[1..], 0);
      ScanAfter(front, tail, INSIDE);
      assert QuotedBody(argument, pending) + [QUOTE] == front + tail;
    }
  }

  lemma {:induction false} ScanPlain(s: Units, state: State)
    requires !state.quoted && (s == [] || !NeedsQuotes(s))
    ensures Scan(s, state).Some? && !Scan(s, state).value.quoted
    decreases |s|
  {
    if s != [] {
      assert !IsSpecial(s[0]);
      var tail := s[1..];
      assert forall i | 0 <= i < |tail| :: tail[i] == s[1 + i];
      ScanPlain(tail, Next(state, s[0]));
    }
  }

  /** A quoted argument is never cut in two and never leaves a quote open. */
  lemma ScanQuoted(argument: Units)
    ensures Scan(Quoted(argument), OUTSIDE).Some? && !Scan(Quoted(argument), OUTSIDE).value.quoted
  {
    if NeedsQuotes(argument) {
      ScanQuotedBody(argument, 0);
      var inner := QuotedBody(argument, 0) + [QUOTE];
      assert Quoted(argument) == [QUOTE] + inner && ([QUOTE] + inner)[1..] == inner;
    } else {
      ScanPlain(argument, OUTSIDE);
    }
  }

  function AllQuoted(arguments: seq<Units>): seq<Units> {
    if arguments == [] then [] else [Quoted(arguments[0])] + AllQuoted(arguments[1..])
  }

  lemma {:induction false} PiecesOfTail(arguments: seq<Units>, state: State, current: Units)
    requires !state.quoted
    ensures Pieces(Trailing(arguments), state, current) == [current] + AllQuoted(arguments)
    decreases |arguments|
  {
    if arguments == [] {
      assert [current] + [] == [current];
    } else {
      var head, rest := Quoted(arguments[0]), Trailing(arguments[1..]);
      var all := Trailing(arguments);
      assert all == [SPACE] + (head + rest) && all[1..] == head + rest;
      ScanQuoted(arguments[0]);
      PiecesAfter(head, rest, OUTSIDE, []);
      assert [] + head == head;
      PiecesOfTail(arguments[1..], Scan(head, OUTSIDE).value, head);
      assert [current] + ([head] + AllQuoted(arguments[1..])) == [current] + AllQuoted(arguments);
    }
  }

  /**
   Cutting the encoded line at its unquoted blanks gives back the program and
   every argument, in order and nothing else, each still decodable on its own.
   */
  lemma SplitOfLine(program: Units, arguments: seq<Units>)
    ensures Pieces(Line(program, arguments), OUTSIDE, []) == [Quoted(program)] + AllQuoted(arguments)
    ensures Decode(Quoted(program), false) == Some(program)
    ensures |AllQuoted(arguments)| == |arguments|
    ensures forall i | 0 <= i < |arguments| :: Decode(AllQuoted(arguments)[i], false) == Some(arguments[i])
  {
    ScanQuoted(program);
    PiecesAfter(Quoted(program), Trailing(arguments), OUTSIDE, []);
    assert [] + Quoted(program) == Quoted(program);
    PiecesOfTail(arguments, Scan(Quoted(program), OUTSIDE).value, Quoted(program));
    DecodeOfQuoted(program);
    AllQuotedAt(arguments);
    forall i | 0 <= i < |arguments|
      ensures Decode(AllQuoted(arguments)[i], false) == Some(arguments[i])
    {
      DecodeOfQuoted(arguments[i]);
    }
  }

  lemma {:induction false} AllQuotedAt(arguments: seq<Units>)
    ensures |AllQuoted(arguments)| == |arguments|
    ensures forall i | 0 <= i < |arguments| :: AllQuoted(arguments)[i] == Quoted(arguments[i])
  {
    if arguments != [] {
      AllQuotedAt(arguments[1..]);
    }
  }

  /** Quoting introduces no NUL, so an encoded line has exactly one, its last unit. */
  lemma {:induction false} QuotedBodyNul(argument: Units, pending: nat)
    requires 0 !in argument
    ensures 0 !in QuotedBody(argument, pending)
    decreases |argument|
  {
    if argument != [] {
      QuotedBodyNul(argument[1..], if argument[0] == BACKSLASH then pending + 1 else 0);
    }
  }

  lemma {:induction false} TailNul(arguments: seq<Units>)
    requires forall i | 0 <= i < |arguments| :: 0 !in arguments[i]
    ensures 0 !in Trailing(arguments)
    decreases |arguments|
  {
    if arguments != [] {
      if NeedsQuotes(arguments[0]) {
        QuotedBodyNul(arguments[0], 0);
      }
      var rest := arguments[1..];
      assert forall i | 0 <= i < |rest| :: rest[i] == arguments[i + 1];
      TailNul(rest);
    }
  }

  lemma LineHasNoNul(program: Units, arguments: seq<Units>)
    requires NulFree(program, arguments)
    ensures 0 !in Line(program, arguments)
  {
    if NeedsQuotes(program) {
      QuotedBodyNul(program, 0);
    }
    TailNul(arguments);
  }
}
