/**
 The body of the `getEnum` helper: the parser's visitor reports every enum
 declaration of the source file in traversal order, the first one whose name
 is the requested one is turned into its index map and resolves the
 returned promise, and the promise is rejected with "not found" when the
 traversal ends without a match.

 The visitor's reports are the input `decls`; the promise's outcome is a
 `Settlement`.
 */
module EnumResolver {
  import opened EnumIndexMap

  /** An `EnumDefinition` node as the visitor hands it over: the enum's name
      and its member names in declaration order. */
  datatype EnumDecl = EnumDecl(name: string, members: seq<string>)

  /** The state of the promise `getEnum` returns. */
  datatype Settlement = Pending | Resolved(value: EnumMap) | Rejected(reason: string)

  /** The reason the promise is rejected with when no enum matches. */
  const NotFoundReason: string := "not found"

  /** Some declaration in `decls` is named `enumName`. */
  predicate Declares(decls: seq<EnumDecl>, enumName: string) {
    exists i :: 0 <= i < |decls| && decls[i].name == enumName
  }

  /** `decls[i]` is the first declaration named `enumName`. */
  predicate IsFirstMatch(decls: seq<EnumDecl>, enumName: string, i: int) {
    && 0 <= i < |decls|
    && decls[i].name == enumName
    && forall j :: 0 <= j < i ==> decls[j].name != enumName
  }

  /** The outcome of `getEnum`, by a walk over the declarations that stops at
      the first match. */
  function Select(decls: seq<EnumDecl>, enumName: string): Settlement {
    if decls == [] then Rejected(NotFoundReason)
    else if decls[0].name == enumName then Resolved(IndexMap(decls[0].members))
    else Select(decls[1..], enumName)
  }

  /** First match wins: the result is built from the first declaration with
      the requested name, whatever follows it. */
  lemma {:induction false} FirstMatchWins(decls: seq<EnumDecl>, enumName: string, i: nat)
    requires IsFirstMatch(decls, enumName, i)
    ensures Select(decls, enumName) == Resolved(IndexMap(decls[i].members))
  {
    if i > 0 {
      assert IsFirstMatch(decls[1..], enumName, i - 1);
      FirstMatchWins(decls[1..], enumName, i - 1);
    }
  }

  /** The promise is rejected, always with "not found", exactly when no
      declaration has the requested name; otherwise it is resolved. */
  lemma {:induction false} NotFoundIff(decls: seq<EnumDecl>, enumName: string)
    ensures Select(decls, enumName).Rejected? <==> !Declares(decls, enumName)
    ensures Select(decls, enumName).Rejected? ==> Select(decls, enumName).reason == NotFoundReason
    ensures !Select(decls, enumName).Pending?
  {
    if decls != [] && decls[0].name != enumName {
      NotFoundIff(decls[1..], enumName);
      if Declares(decls, enumName) {
        var i :| 0 <= i < |decls| && decls[i].name == enumName;
        assert decls[1..][i - 1].name == enumName;
      }
      if Declares(decls[1..], enumName) {
        var i :| 0 <= i < |decls| - 1 && decls[1..][i].name == enumName;
        assert decls[i + 1].name == enumName;
      }
    }
  }

  /** A resolved promise carries the index map of the first declaration
      with the requested name. */
  lemma {:induction false} ResolvedIsFirstMatch(decls: seq<EnumDecl>, enumName: string)
    requires Select(decls, enumName).Resolved?
    ensures exists i :: IsFirstMatch(decls, enumName, i)
                     && Select(decls, enumName).value == IndexMap(decls[i].members)
  {
    if decls[0].name == enumName {
      assert IsFirstMatch(decls, enumName, 0);
    } else {
      ResolvedIsFirstMatch(decls[1..], enumName);
      var i :| IsFirstMatch(decls[1..], enumName, i)
            && Select(decls[1..], enumName).value == IndexMap(decls[1..][i].members);
      assert IsFirstMatch(decls, enumName, i + 1);
    }
  }

  /** Declarations with another name never affect the outcome, wherever
      they are inserted. */
  lemma {:induction false} NonMatchingIgnored(decls: seq<EnumDecl>, k: nat, other: EnumDecl, enumName: string)
    requires k <= |decls|
    requires other.name != enumName
    ensures Select(decls[..k] + [other] + decls[k..], enumName) == Select(decls, enumName)
  {
    var withOther := decls[..k] + [other] + decls[k..];
    if k == 0 {
      assert withOther[1..] == decls;
    } else {
      assert withOther[0] == decls[0];
      if decls[0].name != enumName {
        NonMatchingIgnored(decls[1..], k - 1, other, enumName);
        assert withOther[1..] == decls[1..][..k - 1] + [other] + decls[1..][k - 1..];
      }
    }
  }

  /** Visiting `front` and then `back`: the outcome is that of `front` if
      `front` holds a match, and otherwise that of `back`. */
  lemma {:induction false} SelectAppend(front: seq<EnumDecl>, back: seq<EnumDecl>, enumName: string)
    ensures Select(front + back, enumName) ==
      if Select(front, enumName).Resolved? then Select(front, enumName) else Select(back, enumName)
  {
    if front == [] {
      assert front + back == back;
    } else {
      assert (front + back)[0] == front[0];
      if front[0].name != enumName {
        assert (front + back)[1..] == front[1..] + back;
        SelectAppend(front[1..], back, enumName);
      }
    }
  }

  /** Appending declarations after a match does not change the outcome. */
  lemma {:induction false} AppendAfterMatch(front: seq<EnumDecl>, back: seq<EnumDecl>, enumName: string)
    requires Declares(front, enumName)
    ensures Select(front + back, enumName) == Select(front, enumName)
  {
    NotFoundIff(front, enumName);
    SelectAppend(front, back, enumName);
  }

  /** `getEnum` after the artifact lookups: the visitor callback runs once per
      declaration in traversal order, the `found` flag lets only the first
      match resolve, and the promise is rejected after the traversal when
      nothing matched. The ghost counters record how often `resolve` and
      `reject` are called: the promise is settled exactly once. */
  method GetEnum(decls: seq<EnumDecl>, enumName: string)
    returns (outcome: Settlement, ghost resolveCalls: nat, ghost rejectCalls: nat)
    ensures outcome == Select(decls, enumName)
    ensures !outcome.Pending?
    ensures outcome.Resolved? ==> resolveCalls == 1 && rejectCalls == 0
    ensures outcome.Rejected? ==> resolveCalls == 0 && rejectCalls == 1
  {
    var found := false;
    outcome := Pending;
    resolveCalls, rejectCalls := 0, 0;
    var i := 0;
    while i < |decls|
      invariant 0 <= i <= |decls|
      invariant !found ==> outcome == Pending && forall j :: 0 <= j < i ==> decls[j].name != enumName
      invariant found ==> exists j :: 0 <= j < i && IsFirstMatch(decls, enumName, j)
                                    && outcome == Resolved(IndexMap(decls[j].members))
      invariant resolveCalls == (if found then 1 else 0) && rejectCalls == 0
    {
      var decl := decls[i];
      if !found && decl.name == enumName {
        found := true;
        outcome := Resolved(IndexMap(decl.members));
        resolveCalls := resolveCalls + 1;
      }
      i := i + 1;
    }
    if !found {
      outcome := Rejected(NotFoundReason);
      rejectCalls := rejectCalls + 1;
      NotFoundIff(decls, enumName);
    } else {
      var j :| 0 <= j < i && IsFirstMatch(decls, enumName, j)
            && outcome == Resolved(IndexMap(decls[j].members));
      FirstMatchWins(decls, enumName, j);
    }
  }
}
