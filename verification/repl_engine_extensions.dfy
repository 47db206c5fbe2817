/**
 * Variable introspection of a REPL session: `GetLocalVariables` looks up the
 * script state stored under a session key in the script-pack session's keyed
 * state, renders each variable of that state as "Type Name", and removes
 * duplicate strings, keeping first occurrences.
 */
module ReplEngineExtensions {
  import opened Wrappers
  import opened Dedup

  /** A variable of a script session, with its type and name already rendered as text. */
  datatype Variable = Variable(typeName: string, name: string)

  /** The script state of a session: the variables it has bound, in the order reported. */
  datatype ScriptState = ScriptState(variables: seq<Variable>)

  /** The session state the REPL keeps under a session key; its `Session` may be null (`None`). */
  datatype SessionState = SessionState(session: Option<ScriptState>)

  /**
   * A value of the keyed state store. The store holds arbitrary objects: a
   * session state and null survive the downcast done on lookup, any other
   * object does not.
   */
  datatype StoredValue = ScriptSessionState(sessionState: SessionState) | NullValue | OtherValue

  /** The script-pack session, whose `state` is the keyed state store. */
  datatype ScriptPackSession = ScriptPackSession(state: map<string, StoredValue>)

  /**
   * The exceptions the lookup can throw: the failed downcast of a stored value,
   * and dereferencing a null stored value or a null `Session`.
   */
  datatype Error = InvalidCast | NullReference

  /** The string shown for one variable: its type, a space, its name. */
  function Render(v: Variable): string {
    v.typeName + " " + v.name
  }

  /** Every variable rendered, position by position. */
  function RenderAll(vs: seq<Variable>): seq<string> {
    seq(|vs|, i requires 0 <= i < |vs| => Render(vs[i]))
  }

  /** The rendered list holds the rendering of every variable and nothing else. */
  lemma RenderAllElements(vs: seq<Variable>)
    ensures forall v :: v in vs ==> Render(v) in RenderAll(vs)
    ensures forall s :: s in RenderAll(vs) ==> exists v :: v in vs && Render(v) == s
  {
    forall v | v in vs
      ensures Render(v) in RenderAll(vs)
    {
      var i :| 0 <= i < |vs| && vs[i] == v;
      assert RenderAll(vs)[i] == Render(v);
    }
  }

  /** Rendering distributes over appending one variable. */
  lemma RenderAllAppend(vs: seq<Variable>, v: Variable)
    ensures RenderAll(vs + [v]) == RenderAll(vs) + [Render(v)]
  {
  }

  /** A C# identifier never contains a space. */
  predicate IdentifierNames(vs: seq<Variable>) {
    forall v :: v in vs ==> ' ' !in v.name
  }

  /** The store exists and holds, under `sessionKey`, a session state with a non-null `Session`. */
  predicate HoldsSession(scriptPackSession: Option<ScriptPackSession>, sessionKey: string) {
    scriptPackSession.Some? && sessionKey in scriptPackSession.value.state &&
    scriptPackSession.value.state[sessionKey].ScriptSessionState? &&
    scriptPackSession.value.state[sessionKey].sessionState.session.Some?
  }

  /** The variables of the session stored under `sessionKey`. */
  function SessionVariables(scriptPackSession: Option<ScriptPackSession>, sessionKey: string): seq<Variable>
    requires HoldsSession(scriptPackSession, sessionKey)
  {
    scriptPackSession.value.state[sessionKey].sessionState.session.value.variables
  }

  /**
   * The local variables of the session stored under `sessionKey`, rendered as
   * "Type Name" and without duplicates. A null script-pack session (`None`) or a
   * missing key gives the empty list; a stored value that is not a session state
   * fails the downcast, and a null stored value or a null `Session` fails on
   * dereference.
   */
  function GetLocalVariables(sessionKey: string, scriptPackSession: Option<ScriptPackSession>): (r: Result<seq<string>, Error>)
    ensures scriptPackSession.None? ==> r == Success([])
    ensures scriptPackSession.Some? && sessionKey !in scriptPackSession.value.state ==> r == Success([])
    ensures r == Failure(InvalidCast) <==>
              scriptPackSession.Some? && sessionKey in scriptPackSession.value.state &&
              scriptPackSession.value.state[sessionKey].OtherValue?
    ensures r == Failure(NullReference) <==>
              scriptPackSession.Some? && sessionKey in scriptPackSession.value.state &&
              (scriptPackSession.value.state[sessionKey].NullValue? ||
               (scriptPackSession.value.state[sessionKey].ScriptSessionState? &&
                scriptPackSession.value.state[sessionKey].sessionState.session.None?))
    ensures r.Failure? <==>
              scriptPackSession.Some? && sessionKey in scriptPackSession.value.state &&
              !HoldsSession(scriptPackSession, sessionKey)
    ensures r.Success? ==> NoDuplicates(r.value)
    ensures HoldsSession(scriptPackSession, sessionKey) ==>
              var vs := SessionVariables(scriptPackSession, sessionKey);
              && r.Success?
              && |r.value| <= |vs|
              && (forall s :: s in r.value ==> exists v :: v in vs && Render(v) == s)
              && (forall v :: v in vs ==> Render(v) in r.value)
  {
    if scriptPackSession.Some? && sessionKey in scriptPackSession.value.state then
      match scriptPackSession.value.state[sessionKey]
      case ScriptSessionState(sessionState) =>
        (match sessionState.session
         case None => Failure(NullReference)
         case Some(session) =>
           RenderAllElements(session.variables);
           Success(Distinct(RenderAll(session.variables))))
      case NullValue => Failure(NullReference)
      case OtherValue => Failure(InvalidCast)
    else
      Success([])
  }

  /** The position of the last occurrence of `c` in `s`, if there is one. */
  function LastIndexOf(s: string, c: char): (r: Option<nat>)
    ensures r.Some? ==> r.value < |s| && s[r.value] == c
    decreases |s|
  {
    if s == [] then None
    else if s[|s| - 1] == c then Some(|s| - 1)
    else LastIndexOf(s[..|s| - 1], c)
  }

  /** Split a rendered string at its last space into a type and a name. */
  function ParseRendered(s: string): Option<Variable> {
    match LastIndexOf(s, ' ')
    case None => None
    case Some(k) => Some(Variable(s[..k], s[k + 1..]))
  }

  /** The last `c` of `p + [c] + n` is the one after `p` when `n` holds no `c`. */
  lemma {:induction false} LastIndexOfBeforeSuffix(p: string, c: char, n: string)
    requires c !in n
    ensures LastIndexOf(p + [c] + n, c) == Some(|p|)
    decreases |n|
  {
    var s := p + [c] + n;
    if n != [] {
      assert s[..|s| - 1] == p + [c] + n[..|n| - 1];
      assert s[|s| - 1] == n[|n| - 1];
      LastIndexOfBeforeSuffix(p, c, n[..|n| - 1]);
    }
  }

  /** A variable whose name is an identifier is recovered from its rendering. */
  lemma RenderRoundTrip(v: Variable)
    requires ' ' !in v.name
    ensures ParseRendered(Render(v)) == Some(v)
  {
    LastIndexOfBeforeSuffix(v.typeName, ' ', v.name);
    var s := Render(v);
    assert s[..|v.typeName|] == v.typeName;
    assert s[|v.typeName| + 1..] == v.name;
  }

  /** Variables with identifier names render to equal strings only when they are equal. */
  lemma RenderInjective(v: Variable, w: Variable)
    requires ' ' !in v.name && ' ' !in w.name
    ensures Render(v) == Render(w) <==> v == w
  {
    RenderRoundTrip(v);
    RenderRoundTrip(w);
  }

  /**
   * With identifier names, de-duplicating the rendered strings is the same as
   * de-duplicating the (type, name) pairs and rendering the survivors.
   */
  lemma {:induction false} DedupByStringIsDedupByVariable(vs: seq<Variable>)
    requires IdentifierNames(vs)
    ensures Distinct(RenderAll(vs)) == RenderAll(Distinct(vs))
  {
    if vs != [] {
      var p, v := vs[..|vs| - 1], vs[|vs| - 1];
      assert vs == p + [v];
      RenderAllAppend(p, v);
      DedupByStringIsDedupByVariable(p);
      var d := Distinct(p);
      RenderedIn(d, v);
      if v !in d {
        RenderAllAppend(d, v);
      }
    }
  }

  /** With identifier names, a rendering occurs among the renderings of `d` only for a variable of `d`. */
  lemma RenderedIn(d: seq<Variable>, v: Variable)
    requires IdentifierNames(d) && ' ' !in v.name
    ensures Render(v) in RenderAll(d) <==> v in d
  {
    RenderAllElements(d);
    forall w | w in d
      ensures Render(w) == Render(v) <==> w == v
    {
      RenderInjective(w, v);
    }
  }

  /** The result lists the rendered variables in the order of their first occurrences. */
  lemma GetLocalVariablesOrder(sessionKey: string, scriptPackSession: Option<ScriptPackSession>)
    requires HoldsSession(scriptPackSession, sessionKey)
    ensures var r := GetLocalVariables(sessionKey, scriptPackSession);
            r.Success? && InFirstOccurrenceOrder(r.value, RenderAll(SessionVariables(scriptPackSession, sessionKey)))
  {
    DistinctFirstOccurrenceOrder(RenderAll(SessionVariables(scriptPackSession, sessionKey)));
  }

  /**
   * The result is the one duplicate-free list of exactly the rendered variables
   * in first-occurrence order.
   */
  lemma GetLocalVariablesCharacterized(sessionKey: string, scriptPackSession: Option<ScriptPackSession>, t: seq<string>)
    requires HoldsSession(scriptPackSession, sessionKey)
    requires NoDuplicates(t)
    requires forall s :: s in t <==> s in RenderAll(SessionVariables(scriptPackSession, sessionKey))
    requires InFirstOccurrenceOrder(t, RenderAll(SessionVariables(scriptPackSession, sessionKey)))
    ensures GetLocalVariables(sessionKey, scriptPackSession) == Success(t)
  {
    DistinctCharacterized(RenderAll(SessionVariables(scriptPackSession, sessionKey)), t);
  }

  /** When no two variables render alike, the result is the rendered list itself. */
  lemma GetLocalVariablesExact(sessionKey: string, scriptPackSession: Option<ScriptPackSession>)
    requires HoldsSession(scriptPackSession, sessionKey)
    requires NoDuplicates(RenderAll(SessionVariables(scriptPackSession, sessionKey)))
    ensures GetLocalVariables(sessionKey, scriptPackSession) ==
            Success(RenderAll(SessionVariables(scriptPackSession, sessionKey)))
  {
    DistinctIsIdentityIff(RenderAll(SessionVariables(scriptPackSession, sessionKey)));
  }

  /** The result holds one string per distinct rendering. */
  lemma GetLocalVariablesCount(sessionKey: string, scriptPackSession: Option<ScriptPackSession>)
    requires HoldsSession(scriptPackSession, sessionKey)
    ensures var r := GetLocalVariables(sessionKey, scriptPackSession);
            r.Success? && |r.value| == |Elements(RenderAll(SessionVariables(scriptPackSession, sessionKey)))|
  {
    DistinctLength(RenderAll(SessionVariables(scriptPackSession, sessionKey)));
  }

  /**
   * With identifier names, the result is the rendering of the session's
   * variables de-duplicated by (type, name) identity.
   */
  lemma GetLocalVariablesByVariable(sessionKey: string, scriptPackSession: Option<ScriptPackSession>)
    requires HoldsSession(scriptPackSession, sessionKey)
    requires IdentifierNames(SessionVariables(scriptPackSession, sessionKey))
    ensures GetLocalVariables(sessionKey, scriptPackSession) ==
            Success(RenderAll(Distinct(SessionVariables(scriptPackSession, sessionKey))))
  {
    DedupByStringIsDedupByVariable(SessionVariables(scriptPackSession, sessionKey));
  }

  /**
   * The result depends on nothing but the entry stored under `sessionKey`: two
   * stores that agree on that entry give the same result.
   */
  lemma GetLocalVariablesReadsOnlyEntry(sessionKey: string, a: Option<ScriptPackSession>, b: Option<ScriptPackSession>)
    requires (a.Some? && sessionKey in a.value.state) == (b.Some? && sessionKey in b.value.state)
    requires a.Some? && sessionKey in a.value.state ==> a.value.state[sessionKey] == b.value.state[sessionKey]
    ensures GetLocalVariables(sessionKey, a) == GetLocalVariables(sessionKey, b)
  {
  }
}
