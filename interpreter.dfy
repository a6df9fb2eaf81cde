/** The syntactic analyser: a deterministic automaton over the token list that builds the world,
    scaling every coordinate by the declared unit. */
module Interpreter {
  import opened Objects
  import opened Tokens
  import opened Worlds
  import opened Tokenizer

  /** The automaton's states; the states inside a declaration carry the object being declared. */
  datatype InterpretorState =
    | Initial
    | UnitDeclaration
    | UnitDefinition
    | ObjectDeclaration(obj: ObjectState)
    | PositionDefinition(obj: ObjectState)
    | InitialSpeedDefinition(obj: ObjectState)
    | SizeDefinition(obj: ObjectState)
    | Done

  /** A syntax error: the offending token and the tokens that would have been accepted. */
  datatype InterpretorError = InterpretorError(unexpected: Token, expected: seq<Token>)

  datatype Result<T> = Ok(value: T) | Err(error: InterpretorError)

  /** Everything the interpreter keeps between two tokens: its state, the current unit and the
      values of the objects already added to the world. */
  datatype Machine = Machine(state: InterpretorState, unit: Vec2, world: seq<ObjectState>)

  /** Before the first token: no objects, a unit of one by one. */
  const Begin: Machine := Machine(InterpretorState.Initial, Vec2(1.0, 1.0), [])

  const ExpectedDeclaration: seq<Token> := [Unit, Kind(Spike), Kind(Wall)]
  const ExpectedIs: seq<Token> := [Is]
  const ExpectedVector: seq<Token> := [Vector(0, 0)]
  const ExpectedClause: seq<Token> := [At, OfSize, WithIS]
  const ExpectedScalar: seq<Token> := [Scalar(0, Default), Scalar(0, Pixel)]
  const ExpectedEnd: seq<Token> := [EndOfFile]

  /** `x as f32`, exactly. */
  function Real(x: i32): real { x as int as real }

  /** A vector literal in units, converted to pixels. */
  function Scaled(x: i32, y: i32, unit: Vec2): Vec2 {
    Vec2(Real(x) * unit.x, Real(y) * unit.y)
  }

  /** An initial speed literal: horizontal, in units unless it carries `px`. */
  function SpeedOf(x: i32, u: UnitSuffix, unit: Vec2): Vec2 {
    Vec2(Real(x) * (if u == Default then unit.x else 1.0), 0.0)
  }

  /** One transition of the automaton, as `interpret` performs it. A bad token after `Unit is`
      reports `is`, not a vector, as the expected token. */
  function Step(m: Machine, t: Token): Result<Machine> {
    match m.state
    case Initial =>
      if t == Unit then Ok(m.(state := UnitDeclaration))
      else if t.Kind? then Ok(m.(state := ObjectDeclaration(FromKind(t.kind))))
      else Err(InterpretorError(t, ExpectedDeclaration))
    case UnitDeclaration =>
      if t == Is then Ok(m.(state := UnitDefinition)) else Err(InterpretorError(t, ExpectedIs))
    case UnitDefinition =>
      if t.Vector? then Ok(Machine(InterpretorState.Initial, Vec2(Real(t.x), Real(t.y)), m.world))
      else Err(InterpretorError(t, ExpectedIs))
    case ObjectDeclaration(o) =>
      (match t
       case At => Ok(m.(state := PositionDefinition(o.WithSize(m.unit))))
       case OfSize => Ok(m.(state := SizeDefinition(o.WithSize(m.unit))))
       case WithIS => Ok(m.(state := InitialSpeedDefinition(o)))
       case Kind(k) => Ok(Machine(ObjectDeclaration(FromKind(k)), m.unit, m.world + [o]))
       case EndOfFile => Ok(Machine(InterpretorState.Done, m.unit, m.world + [o]))
       case _ => Err(InterpretorError(t, ExpectedClause)))
    case PositionDefinition(o) =>
      if t.Vector? then Ok(m.(state := ObjectDeclaration(o.WithPosition(Scaled(t.x, t.y, m.unit)))))
      else Err(InterpretorError(t, ExpectedVector))
    case SizeDefinition(o) =>
      if t.Vector? then Ok(m.(state := ObjectDeclaration(o.WithSize(Scaled(t.x, t.y, m.unit)))))
      else Err(InterpretorError(t, ExpectedVector))
    case InitialSpeedDefinition(o) =>
      if t.Scalar? then Ok(m.(state := ObjectDeclaration(o.WithSpeed(SpeedOf(t.value, t.unit, m.unit)))))
      else Err(InterpretorError(t, ExpectedScalar))
    case Done => Err(InterpretorError(t, ExpectedEnd))
  }

  /** The transition as evidently intended: after `Unit is`, the expected token is the vector that
      state reads, as in the position and size states. */
  function IntendedStep(m: Machine, t: Token): Result<Machine> {
    if m.state == UnitDefinition && !t.Vector? then Err(InterpretorError(t, ExpectedVector)) else Step(m, t)
  }

  /** The two transitions agree on every state and token, except for the expected list of a bad
      token after `Unit is`. */
  lemma StepsAgree(m: Machine, t: Token)
    ensures IntendedStep(m, t).Ok? <==> Step(m, t).Ok?
    ensures Step(m, t).Ok? ==> IntendedStep(m, t) == Step(m, t)
    ensures Step(m, t).Err? ==> IntendedStep(m, t).error.unexpected == Step(m, t).error.unexpected
    ensures !(m.state == UnitDefinition && !t.Vector?) ==> IntendedStep(m, t) == Step(m, t)
  {
  }

  /** The automaton after the tokens `ts`, stopping at the first error. */
  function Run(ts: seq<Token>): Result<Machine> {
    if |ts| == 0 then Ok(Begin)
    else match Run(ts[..|ts| - 1])
      case Err(e) => Err(e)
      case Ok(m) => Step(m, ts[|ts| - 1])
  }

  /** What `interpret` returns: the objects added to the world, whatever state the automaton ends
      in, or the first syntax error. */
  function Interpreted(ts: seq<Token>): Result<seq<ObjectState>> {
    match Run(ts)
    case Ok(m) => Ok(m.world)
    case Err(e) => Err(e)
  }

  /** Once a prefix fails, the whole list fails with the same error. */
  lemma {:induction false} RunStops(ts: seq<Token>, k: nat)
    requires k <= |ts| && Run(ts[..k]).Err?
    ensures Run(ts) == Run(ts[..k])
    decreases |ts| - k
  {
    if k < |ts| {
      assert ts[..k + 1][..k] == ts[..k];
      RunStops(ts, k + 1);
    } else {
      assert ts[..k] == ts;
    }
  }

  /** With the intended transition, a failing transition names the token it was given and a
      nonempty list of alternatives that does not contain it, except after the end, where only the
      end-of-file token was expected. */
  lemma StepErrors(m: Machine, t: Token)
    requires IntendedStep(m, t).Err?
    ensures IntendedStep(m, t).error.unexpected == t && |IntendedStep(m, t).error.expected| > 0
    ensures m.state != InterpretorState.Done ==> t !in IntendedStep(m, t).error.expected
    ensures m.state == InterpretorState.Done ==> IntendedStep(m, t).error.expected == [EndOfFile]
  {
    var e := IntendedStep(m, t).error;
    match m.state {
      case Initial => assert e.expected == ExpectedDeclaration;
      case UnitDeclaration => assert e.expected == ExpectedIs;
      case UnitDefinition => assert e.expected == ExpectedVector;
      case ObjectDeclaration(_) => assert e.expected == ExpectedClause;
      case PositionDefinition(_) => assert e.expected == ExpectedVector;
      case SizeDefinition(_) => assert e.expected == ExpectedVector;
      case InitialSpeedDefinition(_) => assert e.expected == ExpectedScalar;
      case Done => assert e.expected == ExpectedEnd;
    }
  }

  /** As written, a failing transition names the token it was given and a nonempty list of
      alternatives. The list leaves the token out, except after `Unit is`, where it is `is`, and
      after the end, where it is the end-of-file token. */
  lemma StepErrorsAsWritten(m: Machine, t: Token)
    requires Step(m, t).Err?
    ensures Step(m, t).error.unexpected == t && |Step(m, t).error.expected| > 0
    ensures m.state != InterpretorState.Done && m.state != UnitDefinition ==> t !in Step(m, t).error.expected
    ensures m.state == UnitDefinition ==> Step(m, t).error.expected == [Is]
    ensures m.state == InterpretorState.Done ==> Step(m, t).error.expected == [EndOfFile]
  {
    StepsAgree(m, t);
    if m.state != UnitDefinition {
      StepErrors(m, t);
    }
  }

  /** The transition as written can report the offending token as the one it expected: the token
      list of `Unit is is` fails listing `is`, where the intended list is the vector. */
  lemma AsWrittenListsOffender(u: Vec2, w: seq<ObjectState>)
    ensures Step(Machine(UnitDefinition, u, w), Is) == Err(InterpretorError(Is, [Is]))
    ensures IntendedStep(Machine(UnitDefinition, u, w), Is) == Err(InterpretorError(Is, [Vector(0, 0)]))
    ensures Interpreted([Unit, Is, Is]) == Err(InterpretorError(Is, [Is]))
  {
    RunAppend([], Unit);
    assert [] + [Unit] == [Unit];
    RunAppend([Unit], Is);
    assert [Unit] + [Is] == [Unit, Is];
    RunAppend([Unit, Is], Is);
    assert [Unit, Is] + [Is] == [Unit, Is, Is];
  }

  /** A syntax error points at a token of the input, every token before which was accepted. */
  lemma {:induction false} ErrorPinpoints(ts: seq<Token>)
    requires Run(ts).Err?
    ensures exists k :: 0 <= k < |ts| && ts[k] == Run(ts).error.unexpected && Run(ts[..k]).Ok?
  {
    var n := |ts| - 1;
    assert ts[..n] == ts[..|ts| - 1];
    if Run(ts[..n]).Err? {
      ErrorPinpoints(ts[..n]);
      var k :| 0 <= k < n && ts[..n][k] == Run(ts[..n]).error.unexpected && Run(ts[..n][..k]).Ok?;
      assert ts[..n][..k] == ts[..k];
    } else {
      StepErrorsAsWritten(Run(ts[..n]).value, ts[n]);
    }
  }

  /** The object held by a declaration state, if any. */
  function Pending(s: InterpretorState): (r: seq<ObjectState>)
    ensures |r| <= 1
  {
    if s.ObjectDeclaration? || s.PositionDefinition? || s.InitialSpeedDefinition? || s.SizeDefinition?
    then [s.obj] else []
  }

  /** The kinds of a list of objects, in order. */
  function KindsOf(s: seq<ObjectState>): (r: seq<ObjectKind>)
    ensures |r| == |s| && forall i :: 0 <= i < |s| ==> r[i] == s[i].kind
  {
    seq(|s|, i requires 0 <= i < |s| => s[i].kind)
  }

  /** The kinds named by the `Kind` tokens of a list, in order. */
  function KindsIn(ts: seq<Token>): seq<ObjectKind> {
    if |ts| == 0 then []
    else KindsIn(ts[..|ts| - 1]) + (if ts[|ts| - 1].Kind? then [ts[|ts| - 1].kind] else [])
  }

  /** An object as a declaration leaves it: alive, in the air, upright, without trail and with no
      vertical speed. */
  predicate Pristine(o: ObjectState) {
    o.alive && !o.isOnGround && o.rotation == 0.0 && o.trail == [] && o.speed.y == 0.0
  }

  predicate AllPristine(s: seq<ObjectState>) {
    forall i :: 0 <= i < |s| ==> Pristine(s[i])
  }

  /** A transition only ever appends the pending object to the world, declares one object per
      `Kind` token and keeps every declared object pristine. */
  lemma StepCommits(m: Machine, t: Token)
    requires Step(m, t).Ok? && AllPristine(m.world + Pending(m.state))
    ensures var n := Step(m, t).value;
      (n.world == m.world || n.world == m.world + Pending(m.state)) &&
      KindsOf(n.world + Pending(n.state)) ==
        KindsOf(m.world + Pending(m.state)) + (if t.Kind? then [t.kind] else []) &&
      AllPristine(n.world + Pending(n.state))
  {
    var n := Step(m, t).value;
    var before := m.world + Pending(m.state);
    var added := if t.Kind? then [t.kind] else [];
    assert KindsOf(n.world + Pending(n.state)) == KindsOf(before) + added;
  }

  /** Every committed or pending object was declared by a `Kind` token, in order, and is
      pristine. */
  lemma {:induction false} RunCommits(ts: seq<Token>)
    requires Run(ts).Ok?
    ensures var m := Run(ts).value;
      KindsOf(m.world + Pending(m.state)) == KindsIn(ts) && AllPristine(m.world + Pending(m.state))
  {
    if |ts| > 0 {
      var pre := ts[..|ts| - 1];
      RunCommits(pre);
      StepCommits(Run(pre).value, ts[|ts| - 1]);
    }
  }

  /** A level whose token list ends with the end-of-file token is accepted only when the last
      declaration is complete; then every object it declares is in the world, in order. */
  lemma {:induction false} TerminatedLevel(ts: seq<Token>)
    requires |ts| > 0 && ts[|ts| - 1] == EndOfFile && Run(ts).Ok?
    ensures Run(ts).value.state == InterpretorState.Done
    ensures KindsOf(Run(ts).value.world) == KindsIn(ts) && |KindsIn(ts)| > 0
    ensures AllPristine(Run(ts).value.world)
  {
    var pre := ts[..|ts| - 1];
    assert Run(pre).Ok? && Run(pre).value.state.ObjectDeclaration?;
    RunCommits(ts);
    RunCommits(pre);
  }

  /** The objects of the world loaded from a level's text: one per object keyword of the text, in
      order, each alive and pristine. */
  lemma LoadedLevel(source: string)
    requires Tokenized(source).Success? && Interpreted(Tokenized(source).value).Ok?
    ensures var ts := Tokenized(source).value;
      KindsOf(Interpreted(ts).value) == KindsIn(ts) && |Interpreted(ts).value| > 0 &&
      AllPristine(Interpreted(ts).value)
  {
    TokenizedEndsOnce(source);
    TerminatedLevel(Tokenized(source).value);
  }

  /** The interpreter accepts a token list that stops inside a declaration and drops the object
      being declared; only the end-of-file token commits the last one, and a level without
      objects is rejected. */
  lemma AcceptsUnfinished()
    ensures Interpreted([]) == Ok([])
    ensures Interpreted([Kind(Wall), At]) == Ok([])
    ensures Interpreted([EndOfFile]) == Err(InterpretorError(EndOfFile, ExpectedDeclaration))
  {
    RunAppend([], Kind(Wall));
    RunAppend([Kind(Wall)], At);
    RunAppend([], EndOfFile);
  }

  /** A unit can be declared only in the initial state: anywhere else the `Unit` token is a syntax
      error. */
  lemma UnitOnlyAtTop(m: Machine)
    ensures Step(m, Unit).Ok? <==> m.state == InterpretorState.Initial
    ensures Step(m, Unit).Ok? ==> Step(m, Unit).value == m.(state := UnitDeclaration)
  {
  }

  /** The states of a unit declaration are left for good by the first object declaration: while
      the automaton is in one of them, no object has been declared. */
  lemma {:induction false} UnitStatesPrecedeObjects(ts: seq<Token>)
    requires Run(ts).Ok?
    requires Run(ts).value.state in {InterpretorState.Initial, UnitDeclaration, UnitDefinition}
    ensures Run(ts).value.world == [] && KindsIn(ts) == []
  {
    if |ts| > 0 {
      var pre := ts[..|ts| - 1];
      assert Run(pre).Ok?;
      UnitStatesPrecedeObjects(pre);
    }
  }

  /** After the end, every token is an error that names the end-of-file token as expected. */
  lemma NothingAfterEnd(m: Machine, t: Token)
    requires m.state == InterpretorState.Done
    ensures Step(m, t) == Err(InterpretorError(t, [EndOfFile]))
  {
  }

  /** One more token: the run goes on from where it was, unless it had already failed. */
  lemma RunAppend(ts: seq<Token>, t: Token)
    ensures Run(ts + [t]) == if Run(ts).Err? then Run(ts) else Step(Run(ts).value, t)
  {
    assert (ts + [t])[..|ts|] == ts;
  }

  // ---------------------------------------------------------------------------------------------
  // What each declaration does

  /** At the top of the file, `Unit is (x,y)` replaces the unit and a kind opens a new object of
      that kind. */
  lemma TopLevel(ts: seq<Token>, u: Vec2, w: seq<ObjectState>, x: i32, y: i32, k: ObjectKind)
    requires Run(ts) == Ok(Machine(InterpretorState.Initial, u, w))
    ensures Run(ts + [Unit, Is, Vector(x, y)]) ==
      Ok(Machine(InterpretorState.Initial, Vec2(x as int as real, y as int as real), w))
    ensures Run(ts + [Kind(k)]) == Ok(Machine(ObjectDeclaration(FromKind(k)), u, w))
  {
    RunAppend(ts, Unit);
    RunAppend(ts + [Unit], Is);
    RunAppend(ts + [Unit] + [Is], Vector(x, y));
    assert ts + [Unit] + [Is] + [Vector(x, y)] == ts + [Unit, Is, Vector(x, y)];
    RunAppend(ts, Kind(k));
  }

  /** Inside a declaration of `o` with unit `u`, `at (x,y)` sets the size to the unit and the
      position to `(x * u.x, y * u.y)`, and changes nothing else. */
  lemma PlaceClause(ts: seq<Token>, o: ObjectState, u: Vec2, w: seq<ObjectState>, x: i32, y: i32)
    requires Run(ts) == Ok(Machine(ObjectDeclaration(o), u, w))
    ensures Run(ts + [At, Vector(x, y)]) ==
      Ok(Machine(ObjectDeclaration(o.(size := u, position := Scaled(x, y, u))), u, w))
    ensures Scaled(x, y, u) == Vec2(x as int as real * u.x, y as int as real * u.y)
  {
    RunAppend(ts, At);
    assert Run(ts + [At]) == Ok(Machine(PositionDefinition(o.(size := u)), u, w));
    RunAppend(ts + [At], Vector(x, y));
    assert Scaled(x, y, u) == Vec2(x as int as real * u.x, y as int as real * u.y);
    assert ts + [At] + [Vector(x, y)] == ts + [At, Vector(x, y)];
  }

  /** Inside a declaration of `o` with unit `u`, `of size (x,y)` sets the size to
      `(x * u.x, y * u.y)`, and changes nothing else. */
  lemma SizeClause(ts: seq<Token>, o: ObjectState, u: Vec2, w: seq<ObjectState>, x: i32, y: i32)
    requires Run(ts) == Ok(Machine(ObjectDeclaration(o), u, w))
    ensures Run(ts + [OfSize, Vector(x, y)]) ==
      Ok(Machine(ObjectDeclaration(o.(size := Scaled(x, y, u))), u, w))
    ensures Scaled(x, y, u) == Vec2(x as int as real * u.x, y as int as real * u.y)
  {
    RunAppend(ts, OfSize);
    assert Run(ts + [OfSize]) == Ok(Machine(SizeDefinition(o.(size := u)), u, w));
    RunAppend(ts + [OfSize], Vector(x, y));
    assert Scaled(x, y, u) == Vec2(x as int as real * u.x, y as int as real * u.y);
    assert ts + [OfSize] + [Vector(x, y)] == ts + [OfSize, Vector(x, y)];
  }

  /** Inside a declaration of `o` with unit `u`, `with initial speed of n` sets the speed to
      `(n * u.x, 0)`, and `with initial speed of npx` to `(n, 0)`; nothing else changes. */
  lemma SpeedClause(ts: seq<Token>, o: ObjectState, u: Vec2, w: seq<ObjectState>, n: i32, suffix: UnitSuffix)
    requires Run(ts) == Ok(Machine(ObjectDeclaration(o), u, w))
    ensures Run(ts + [WithIS, Scalar(n, suffix)]) ==
      Ok(Machine(ObjectDeclaration(o.(speed := SpeedOf(n, suffix, u))), u, w))
    ensures SpeedOf(n, suffix, u) == Vec2(if suffix == Pixel then n as int as real else n as int as real * u.x, 0.0)
  {
    RunAppend(ts, WithIS);
    assert Run(ts + [WithIS]) == Ok(Machine(InitialSpeedDefinition(o), u, w));
    RunAppend(ts + [WithIS], Scalar(n, suffix));
    assert SpeedOf(n, suffix, u) == Vec2(if suffix == Pixel then n as int as real else n as int as real * u.x, 0.0);
    assert ts + [WithIS] + [Scalar(n, suffix)] == ts + [WithIS, Scalar(n, suffix)];
  }

  /** A declaration of `o` is committed to the end of the world by the next kind, which opens a
      new object, or by the end of the file. An object declared without clauses is a new object
      of its kind: at the origin, 30×30 and at rest. */
  lemma BareDeclaration(ts: seq<Token>, o: ObjectState, u: Vec2, w: seq<ObjectState>, k: ObjectKind)
    requires Run(ts) == Ok(Machine(ObjectDeclaration(o), u, w))
    ensures Run(ts + [Kind(k)]) == Ok(Machine(ObjectDeclaration(FromKind(k)), u, w + [o]))
    ensures Run(ts + [EndOfFile]) == Ok(Machine(InterpretorState.Done, u, w + [o]))
    ensures Run(ts + [Kind(k), EndOfFile]) ==
      Ok(Machine(InterpretorState.Done, u, w + [o] + [FromKind(k)]))
    ensures FromKind(k).kind == k && FromKind(k).position == Vec2(0.0, 0.0)
    ensures FromKind(k).size == Vec2(30.0, 30.0) && FromKind(k).speed == Vec2(0.0, 0.0)
  {
    RunAppend(ts, Kind(k));
    RunAppend(ts, EndOfFile);
    RunAppend(ts + [Kind(k)], EndOfFile);
    assert ts + [Kind(k)] + [EndOfFile] == ts + [Kind(k), EndOfFile];
  }

  // ---------------------------------------------------------------------------------------------
  // The level grammar

  /** A clause of an object declaration: `at (x,y)`, `of size (x,y)`, `with initial speed of n[px]`. */
  datatype Clause = Place(x: i32, y: i32) | Dimensions(w: i32, h: i32) | Launch(n: i32, suffix: UnitSuffix)

  /** An object declaration: a kind and its clauses, in any order. */
  datatype Declaration = Declaration(kind: ObjectKind, clauses: seq<Clause>)

  /** A level: unit declarations, then object declarations. */
  datatype Level = Level(units: seq<(i32, i32)>, declarations: seq<Declaration>)

  function ClauseTokens(c: Clause): seq<Token> {
    match c
    case Place(x, y) => [At, Vector(x, y)]
    case Dimensions(w, h) => [OfSize, Vector(w, h)]
    case Launch(n, suffix) => [WithIS, Scalar(n, suffix)]
  }

  function ClausesTokens(cs: seq<Clause>): seq<Token> {
    if |cs| == 0 then [] else ClauseTokens(cs[0]) + ClausesTokens(cs[1..])
  }

  function DeclarationsTokens(ds: seq<Declaration>): seq<Token> {
    if |ds| == 0 then [] else [Kind(ds[0].kind)] + ClausesTokens(ds[0].clauses) + DeclarationsTokens(ds[1..])
  }

  function UnitsTokens(us: seq<(i32, i32)>): seq<Token> {
    if |us| == 0 then [] else [Unit, Is, Vector(us[0].0, us[0].1)] + UnitsTokens(us[1..])
  }

  /** The token list of a level, as the lexer produces it: ended by the end-of-file token. */
  function LevelTokens(l: Level): seq<Token> {
    UnitsTokens(l.units) + DeclarationsTokens(l.declarations) + [EndOfFile]
  }

  /** The unit in force after the unit declarations: the last one, or one by one. */
  function UnitAfter(u: Vec2, us: seq<(i32, i32)>): Vec2 {
    if |us| == 0 then u else Vec2(us[|us| - 1].0 as int as real, us[|us| - 1].1 as int as real)
  }

  /** The meaning of a clause for an object, under unit `u`. */
  function Applied(o: ObjectState, c: Clause, u: Vec2): ObjectState {
    match c
    case Place(x, y) => o.(size := u, position := Scaled(x, y, u))
    case Dimensions(w, h) => o.(size := Scaled(w, h, u))
    case Launch(n, suffix) => o.(speed := SpeedOf(n, suffix, u))
  }

  /** The clauses applied in order to an object. */
  function AppliedAll(o: ObjectState, cs: seq<Clause>, u: Vec2): ObjectState
    decreases |cs|
  {
    if |cs| == 0 then o else AppliedAll(Applied(o, cs[0], u), cs[1..], u)
  }

  /** The object a declaration stands for. */
  function Declared(d: Declaration, u: Vec2): ObjectState {
    AppliedAll(FromKind(d.kind), d.clauses, u)
  }

  /** The objects of a list of declarations, in order. */
  function DeclaredAll(ds: seq<Declaration>, u: Vec2): (r: seq<ObjectState>)
    ensures |r| == |ds|
  {
    seq(|ds|, i requires 0 <= i < |ds| => Declared(ds[i], u))
  }

  lemma {:induction false} UnitsRun(ts: seq<Token>, u: Vec2, us: seq<(i32, i32)>)
    requires Run(ts) == Ok(Machine(InterpretorState.Initial, u, []))
    ensures Run(ts + UnitsTokens(us)) == Ok(Machine(InterpretorState.Initial, UnitAfter(u, us), []))
    decreases |us|
  {
    if |us| == 0 {
      assert ts + UnitsTokens(us) == ts;
    } else {
      var first := [Unit, Is, Vector(us[0].0, us[0].1)];
      TopLevel(ts, u, [], us[0].0, us[0].1, Wall);
      assert ts + UnitsTokens(us) == (ts + first) + UnitsTokens(us[1..]);
      UnitsRun(ts + first, UnitAfter(u, us[..1]), us[1..]);
      if |us| > 1 {
        assert us[1..][|us[1..]| - 1] == us[|us| - 1];
      }
    }
  }

  lemma {:induction false} ClausesRun(ts: seq<Token>, o: ObjectState, u: Vec2, w: seq<ObjectState>,
                                       cs: seq<Clause>)
    requires Run(ts) == Ok(Machine(ObjectDeclaration(o), u, w))
    ensures Run(ts + ClausesTokens(cs)) == Ok(Machine(ObjectDeclaration(AppliedAll(o, cs, u)), u, w))
    decreases |cs|
  {
    if |cs| == 0 {
      assert ts + ClausesTokens(cs) == ts;
    } else {
      var c := cs[0];
      ClauseRun(ts, o, u, w, c);
      assert ts + ClausesTokens(cs) == (ts + ClauseTokens(c)) + ClausesTokens(cs[1..]);
      ClausesRun(ts + ClauseTokens(c), Applied(o, c, u), u, w, cs[1..]);
    }
  }

  lemma ClauseRun(ts: seq<Token>, o: ObjectState, u: Vec2, w: seq<ObjectState>, c: Clause)
    requires Run(ts) == Ok(Machine(ObjectDeclaration(o), u, w))
    ensures Run(ts + ClauseTokens(c)) == Ok(Machine(ObjectDeclaration(Applied(o, c, u)), u, w))
  {
    var toks := ClauseTokens(c);
    var after := Applied(o, c, u);
    match c {
      case Place(x, y) =>
        PlaceClause(ts, o, u, w, x, y);
        assert toks == [At, Vector(x, y)];
      case Dimensions(x, y) =>
        SizeClause(ts, o, u, w, x, y);
        assert toks == [OfSize, Vector(x, y)];
      case Launch(n, suffix) =>
        SpeedClause(ts, o, u, w, n, suffix);
        assert toks == [WithIS, Scalar(n, suffix)];
    }
  }

  /** One declaration after an open declaration of `o`: `o` is committed and the declared object
      is open. */
  lemma DeclarationRun(ts: seq<Token>, o: ObjectState, u: Vec2, w: seq<ObjectState>, d: Declaration)
    requires Run(ts) == Ok(Machine(ObjectDeclaration(o), u, w))
    ensures Run(ts + ([Kind(d.kind)] + ClausesTokens(d.clauses))) ==
      Ok(Machine(ObjectDeclaration(Declared(d, u)), u, w + [o]))
  {
    CommitRun(ts, o, u, w, d.kind);
    ClausesRun(ts + [Kind(d.kind)], FromKind(d.kind), u, w + [o], d.clauses);
    Assoc(ts, [Kind(d.kind)], ClausesTokens(d.clauses));
  }

  lemma CommitRun(ts: seq<Token>, o: ObjectState, u: Vec2, w: seq<ObjectState>, k: ObjectKind)
    requires Run(ts) == Ok(Machine(ObjectDeclaration(o), u, w))
    ensures Run(ts + [Kind(k)]) == Ok(Machine(ObjectDeclaration(FromKind(k)), u, w + [o]))
  {
    RunAppend(ts, Kind(k));
  }

  lemma {:induction false} DeclarationsRun(ts: seq<Token>, o: ObjectState, u: Vec2, w: seq<ObjectState>,
                                            ds: seq<Declaration>)
    requires Run(ts) == Ok(Machine(ObjectDeclaration(o), u, w))
    ensures Run(ts + (DeclarationsTokens(ds) + [EndOfFile])) ==
      Ok(Machine(InterpretorState.Done, u, w + ([o] + DeclaredAll(ds, u))))
    decreases |ds|
  {
    if |ds| == 0 {
      assert DeclarationsTokens(ds) + [EndOfFile] == [EndOfFile];
      BareDeclaration(ts, o, u, w, Wall);
      Unit0(o, DeclaredAll(ds, u));
    } else {
      var d := ds[0];
      var head := [Kind(d.kind)] + ClausesTokens(d.clauses);
      var tail := DeclarationsTokens(ds[1..]) + [EndOfFile];
      DeclarationRun(ts, o, u, w, d);
      DeclarationsRun(ts + head, Declared(d, u), u, w + [o], ds[1..]);
      Assoc(head, DeclarationsTokens(ds[1..]), [EndOfFile]);
      Assoc(ts, head, tail);
      DeclaredAllCons(ds, u);
      Assoc(w, [o], [Declared(d, u)] + DeclaredAll(ds[1..], u));
    }
  }

  lemma Unit0<T>(x: T, e: seq<T>)
    requires |e| == 0
    ensures [x] + e == [x]
  {
  }

  lemma DeclaredAllCons(ds: seq<Declaration>, u: Vec2)
    requires |ds| > 0
    ensures DeclaredAll(ds, u) == [Declared(ds[0], u)] + DeclaredAll(ds[1..], u)
  {
  }

  /** A level written in the grammar is accepted when it declares at least one object, and then
      its world holds the declared objects, in order, each placed, sized and launched by its
      clauses under the last unit declared. A level without objects is rejected at the end of the
      file. */
  lemma LevelAccepted(l: Level)
    ensures Interpreted(LevelTokens(l)) ==
      if l.declarations == [] then Err(InterpretorError(EndOfFile, ExpectedDeclaration))
      else Ok(DeclaredAll(l.declarations, UnitAfter(Vec2(1.0, 1.0), l.units)))
  {
    var u := UnitAfter(Vec2(1.0, 1.0), l.units);
    var ts0 := UnitsTokens(l.units);
    assert Run([]) == Ok(Begin);
    UnitsRun([], Vec2(1.0, 1.0), l.units);
    assert [] + ts0 == ts0;
    var ds := l.declarations;
    if ds == [] {
      assert LevelTokens(l) == ts0 + [EndOfFile];
      RunAppend(ts0, EndOfFile);
    } else {
      var d := ds[0];
      var head := [Kind(d.kind)] + ClausesTokens(d.clauses);
      var tail := DeclarationsTokens(ds[1..]) + [EndOfFile];
      FirstDeclarationRun(ts0, u, d);
      DeclarationsRun(ts0 + head, Declared(d, u), u, [], ds[1..]);
      Assoc(head, DeclarationsTokens(ds[1..]), [EndOfFile]);
      Assoc(ts0, DeclarationsTokens(ds), [EndOfFile]);
      Assoc(ts0, head, tail);
      DeclaredAllCons(ds, u);
      Unit0Left([Declared(d, u)] + DeclaredAll(ds[1..], u));
    }
  }

  /** The first declaration opens its object in a world still empty. */
  lemma FirstDeclarationRun(ts: seq<Token>, u: Vec2, d: Declaration)
    requires Run(ts) == Ok(Machine(InterpretorState.Initial, u, []))
    ensures Run(ts + ([Kind(d.kind)] + ClausesTokens(d.clauses))) ==
      Ok(Machine(ObjectDeclaration(Declared(d, u)), u, []))
  {
    TopLevel(ts, u, [], 0, 0, d.kind);
    ClausesRun(ts + [Kind(d.kind)], FromKind(d.kind), u, [], d.clauses);
    Assoc(ts, [Kind(d.kind)], ClausesTokens(d.clauses));
  }

  lemma Unit0Left<T>(s: seq<T>)
    ensures [] + s == s
  {
  }

  /** `Interpretor::interpret`: runs the automaton over the tokens, adding each completed object to
      a new world, and returns the world whatever state it ends in, or the first syntax error. */
  method Interpret(tokens: seq<Token>) returns (r: Result<World>)
    ensures Interpreted(tokens).Ok? ==>
      r.Ok? && fresh(r.value) && r.value.Valid() && r.value.playing &&
      r.value.States() == Interpreted(tokens).value
    ensures Interpreted(tokens).Err? ==> r == Err(Interpreted(tokens).error)
  {
    var world := new World();
    var unit := Vec2(1.0, 1.0);
    var state := InterpretorState.Initial;

    var i := 0;
    while i < |tokens|
      invariant 0 <= i <= |tokens|
      invariant fresh(world) && world.Valid() && world.playing
      invariant Run(tokens[..i]) == Ok(Machine(state, unit, world.States()))
    {
      var t := tokens[i];
      assert tokens[..i + 1][..i] == tokens[..i];
      ghost var before := Machine(state, unit, world.States());
      var failure: Option<InterpretorError> := None;
      match state {
        case Initial =>
          if t == Unit {
            state := UnitDeclaration;
          } else if t.Kind? {
            state := ObjectDeclaration(FromKind(t.kind));
          } else {
            failure := Some(InterpretorError(t, ExpectedDeclaration));
          }
        case UnitDeclaration =>
          if t == Is {
            state := UnitDefinition;
          } else {
            failure := Some(InterpretorError(t, ExpectedIs));
          }
        case UnitDefinition =>
          if t.Vector? {
            unit := Vec2(Real(t.x), Real(t.y));
            state := InterpretorState.Initial;
          } else {
            failure := Some(InterpretorError(t, ExpectedIs));
          }
        case ObjectDeclaration(o) =>
          match t {
            case At => state := PositionDefinition(o.WithSize(unit));
            case OfSize => state := SizeDefinition(o.WithSize(unit));
            case WithIS => state := InitialSpeedDefinition(o);
            case Kind(k) =>
              world.AddObject(o);
              state := ObjectDeclaration(FromKind(k));
            case EndOfFile =>
              world.AddObject(o);
              state := InterpretorState.Done;
            case _ => failure := Some(InterpretorError(t, ExpectedClause));
          }
        case PositionDefinition(o) =>
          if t.Vector? {
            state := ObjectDeclaration(o.WithPosition(Scaled(t.x, t.y, unit)));
          } else {
            failure := Some(InterpretorError(t, ExpectedVector));
          }
        case SizeDefinition(o) =>
          if t.Vector? {
            state := ObjectDeclaration(o.WithSize(Scaled(t.x, t.y, unit)));
          } else {
            failure := Some(InterpretorError(t, ExpectedVector));
          }
        case InitialSpeedDefinition(o) =>
          if t.Scalar? {
            state := ObjectDeclaration(o.WithSpeed(SpeedOf(t.value, t.unit, unit)));
          } else {
            failure := Some(InterpretorError(t, ExpectedScalar));
          }
        case Done =>
          failure := Some(InterpretorError(t, ExpectedEnd));
      }
      if failure.Some? {
        assert Run(tokens[..i + 1]) == Err(failure.value);
        RunStops(tokens, i + 1);
        return Err(failure.value);
      }
      i := i + 1;
    }
    assert tokens[..i] == tokens;
    r := Ok(world);
  }
}
