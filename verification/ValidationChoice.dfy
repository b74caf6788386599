/** The one failure reported out of a request validator's error tree
    (backend/internal/httpserver/openapi_validate.go). */
module ValidationChoice {

  /** A kin-openapi error below a body or a parameter: several, a SchemaError
      (the keyword it broke, that schema's format, and where), ErrInvalidRequired,
      or anything else. */
  datatype Cause =
    | Multi(causes: seq<Cause>)
    | Schema(keyword: string, format: string, pointer: seq<string>)
    | Required
    | Opaque(text: string)

  datatype Error =
    | MultiError(errors: seq<Error>)
    | ParameterError(name: string, cause: Cause)
    | BodyError(cause: Cause)
    | MediaTypeError(text: string)
    | Fault(text: string)           // not a verdict on the request

  /** One collected leaf; `undecodable` is "" for a named field. */
  datatype Failure = Failure(field: string, rule: string, undecodable: string)

  /** The reply: 500, 400 INVALID_JSON_BODY, or 400 VALIDATION on one field. */
  datatype Reply = InternalError | InvalidJsonBody | Validation(field: string, rule: string)

  function JoinPointer(p: seq<string>, sep: string): string {
    if p == [] then "" else if |p| == 1 then p[0] else p[0] + sep + JoinPointer(p[1..], sep)
  }

  /** constraintRule: the rule a keyword reports, "" if it makes the body undecodable. */
  function ConstraintRule(keyword: string, format: string): string {
    if keyword == "required" then "required"
    else if keyword in ["minLength", "minimum", "exclusiveMinimum", "minItems", "minProperties"] then "min"
    else if keyword in ["maxLength", "maximum", "exclusiveMaximum", "maxItems", "maxProperties"] then "max"
    else if keyword == "pattern" then "pattern"
    else if keyword == "format" && format == "email" then "email"
    else ""
  }

  /** What collectBodyFailures appends for one leaf. */
  function BodyLeaf(c: Cause): Failure
    requires !c.Multi?
  {
    match c
    case Schema(keyword, format, pointer) =>
      var rule := ConstraintRule(keyword, format);
      if rule != "" && pointer != [] then Failure(JoinPointer(pointer, "."), rule, "")
      else Failure("", "", keyword + " at /" + JoinPointer(pointer, "/"))
    case Required => Failure("", "", "value is required but missing")
    case Opaque(text) => Failure("", "", text)
  }

  /** parameterRule. */
  function ParameterRule(c: Cause): string
    requires !c.Multi?
  {
    match c
    case Required => "required"
    case Schema(keyword, format, _) =>
      var rule := ConstraintRule(keyword, format);
      if rule != "" then rule else "invalid"
    case Opaque(_) => "invalid"
  }

  // ------------------------------------------------------------ leaves

  /** What a tree says, whatever its order and nesting: a fault, or a failure. */
  datatype Leaf = FaultLeaf | FailureLeaf(failure: Failure)

  ghost function BodyLeaves(c: Cause): set<Leaf>
    decreases c, 1
  {
    if c.Multi? then AllBodyLeaves(c.causes) else {FailureLeaf(BodyLeaf(c))}
  }

  ghost function AllBodyLeaves(cs: seq<Cause>): set<Leaf>
    decreases cs, 0
  {
    if cs == [] then {} else AllBodyLeaves(cs[..|cs| - 1]) + BodyLeaves(cs[|cs| - 1])
  }

  ghost function ParameterLeaves(name: string, c: Cause): set<Leaf>
    decreases c, 1
  {
    if c.Multi? then AllParameterLeaves(name, c.causes) else {FailureLeaf(Failure(name, ParameterRule(c), ""))}
  }

  ghost function AllParameterLeaves(name: string, cs: seq<Cause>): set<Leaf>
    decreases cs, 0
  {
    if cs == [] then {} else AllParameterLeaves(name, cs[..|cs| - 1]) + ParameterLeaves(name, cs[|cs| - 1])
  }

  ghost function Leaves(e: Error): set<Leaf>
    decreases e, 1
  {
    match e
    case MultiError(errors) => AllLeaves(errors)
    case ParameterError(name, cause) => ParameterLeaves(name, cause)
    case BodyError(cause) => BodyLeaves(cause)
    case MediaTypeError(text) => {FailureLeaf(Failure("", "", text))}
    case Fault(_) => {FaultLeaf}
  }

  ghost function AllLeaves(es: seq<Error>): set<Leaf>
    decreases es, 0
  {
    if es == [] then {} else AllLeaves(es[..|es| - 1]) + Leaves(es[|es| - 1])
  }

  /** A MultiError has the leaves of its members, in any order and repetition. */
  lemma {:induction false} AllLeavesAre(es: seq<Error>, l: Leaf)
    ensures l in AllLeaves(es) <==> exists i :: 0 <= i < |es| && l in Leaves(es[i])
  {
    if es != [] {
      var init := es[..|es| - 1];
      AllLeavesAre(init, l);
      if l in AllLeaves(init) {
        var i :| 0 <= i < |init| && l in Leaves(init[i]);
        assert l in Leaves(es[i]);
      }
      forall i | 0 <= i < |es| && l in Leaves(es[i]) ensures l in AllLeaves(es) {
        if i < |init| { assert l in Leaves(init[i]); }
      }
    }
  }

  // ------------------------------------------------------------ the order

  /** Go's string order: by code, a prefix first. */
  predicate StringLess(a: string, b: string) {
    if b == "" then false
    else if a == "" then true
    else if a[0] != b[0] then a[0] < b[0]
    else StringLess(a[1..], b[1..])
  }

  lemma {:induction false} StringOrderTotal(a: string, b: string)
    ensures StringLess(a, b) || StringLess(b, a) || a == b
    ensures !(StringLess(a, b) && StringLess(b, a))
  {
    if a != "" && b != "" && a[0] == b[0] {
      StringOrderTotal(a[1..], b[1..]);
      assert a == [a[0]] + a[1..] && b == [b[0]] + b[1..];
    }
  }

  lemma {:induction false} StringOrderTransitive(a: string, b: string, c: string)
    requires StringLess(a, b) && StringLess(b, c)
    ensures StringLess(a, c)
  {
    if a != "" && a[0] == b[0] && b[0] == c[0] { StringOrderTransitive(a[1..], b[1..], c[1..]); }
  }

  /** The comparison slices.MinFunc is given: field, then rule. */
  predicate Less(a: Failure, b: Failure) {
    StringLess(a.field, b.field) || (a.field == b.field && StringLess(a.rule, b.rule))
  }

  lemma LessTotal(a: Failure, b: Failure)
    ensures Less(a, b) || Less(b, a) || (a.field == b.field && a.rule == b.rule)
    ensures !(Less(a, b) && Less(b, a))
  {
    StringOrderTotal(a.field, b.field);
    StringOrderTotal(a.rule, b.rule);
  }

  lemma NotLessTransitive(a: Failure, b: Failure, c: Failure)
    requires !Less(b, a) && !Less(c, b)
    ensures !Less(c, a)
  {
    LessTotal(a, b);
    LessTotal(b, c);
    if Less(a, b) && Less(b, c) {
      LessTransitive(a, b, c);
      LessTotal(a, c);
    }
  }

  lemma LessTransitive(a: Failure, b: Failure, c: Failure)
    requires Less(a, b) && Less(b, c)
    ensures Less(a, c)
  {
    if StringLess(a.field, b.field) && StringLess(b.field, c.field) {
      StringOrderTransitive(a.field, b.field, c.field);
    }
    if StringLess(a.rule, b.rule) && StringLess(b.rule, c.rule) { StringOrderTransitive(a.rule, b.rule, c.rule); }
  }

  /** The order as it is meant: where the two first differ the lesser has the lower
      code, or it ends there. */
  ghost predicate Precedes(a: string, b: string) {
    exists k :: 0 <= k < |b| && k <= |a| && a[..k] == b[..k] && (k == |a| || a[k] < b[k])
  }

  lemma {:induction false} StringLessIsPrecedes(a: string, b: string)
    ensures StringLess(a, b) <==> Precedes(a, b)
  {
    if b == "" {
    } else if a == "" {
      assert a[..0] == b[..0];
    } else if a[0] != b[0] {
      assert a[..0] == b[..0];
      forall k | 0 < k < |b| && k <= |a| ensures a[..k] != b[..k] {
        assert a[..k][0] == a[0] && b[..k][0] == b[0];
      }
    } else {
      StringLessIsPrecedes(a[1..], b[1..]);
      assert Precedes(a[1..], b[1..]) <==> Precedes(a, b) by { TailsPrecede(a, b); }
    }
  }

  lemma TailsPrecede(a: string, b: string)
    requires a != "" && b != "" && a[0] == b[0]
    ensures Precedes(a[1..], b[1..]) <==> Precedes(a, b)
  {
    var a', b' := a[1..], b[1..];
    if Precedes(a', b') {
      var k :| 0 <= k < |b'| && k <= |a'| && a'[..k] == b'[..k] && (k == |a'| || a'[k] < b'[k]);
      assert a[..k + 1] == [a[0]] + a'[..k] && b[..k + 1] == [b[0]] + b'[..k];
      assert k + 1 < |b| && k + 1 <= |a| && a[..k + 1] == b[..k + 1] && (k + 1 == |a| || a[k + 1] < b[k + 1]);
    }
    if Precedes(a, b) {
      var k :| 0 <= k < |b| && k <= |a| && a[..k] == b[..k] && (k == |a| || a[k] < b[k]);
      assert k > 0;
      assert a'[..k - 1] == a[..k][1..] && b'[..k - 1] == b[..k][1..];
      assert k - 1 < |b'| && a'[..k - 1] == b'[..k - 1] && (k - 1 == |a'| || a'[k - 1] < b'[k - 1]);
    }
  }

  // ------------------------------------------------------------ collecting

  ghost function FailureSet(found: seq<Failure>): set<Leaf> { set f | f in found :: FailureLeaf(f) }

  class Collector {
    var found: seq<Failure>

    constructor ()
      ensures found == []
    {
      found := [];
    }

    /** collectBodyFailures: appends the leaves below a body, in tree order. */
    method CollectBody(c: Cause)
      modifies this
      ensures old(found) <= found
      ensures FailureSet(found) == old(FailureSet(found)) + BodyLeaves(c)
      decreases c
    {
      if c.Multi? {
        var i := 0;
        ghost var before := found;
        while i < |c.causes|
          invariant 0 <= i <= |c.causes| && before <= found
          invariant FailureSet(found) == FailureSet(before) + AllBodyLeaves(c.causes[..i])
        {
          CollectBody(c.causes[i]);
          assert c.causes[..i + 1][..i] == c.causes[..i];
          i := i + 1;
        }
        assert c.causes[..i] == c.causes;
      } else {
        Append(BodyLeaf(c));
      }
    }

    /** collectParameterFailures. */
    method CollectParameter(name: string, c: Cause)
      modifies this
      ensures old(found) <= found
      ensures FailureSet(found) == old(FailureSet(found)) + ParameterLeaves(name, c)
      decreases c
    {
      if c.Multi? {
        var i := 0;
        ghost var before := found;
        while i < |c.causes|
          invariant 0 <= i <= |c.causes| && before <= found
          invariant FailureSet(found) == FailureSet(before) + AllParameterLeaves(name, c.causes[..i])
        {
          CollectParameter(name, c.causes[i]);
          assert c.causes[..i + 1][..i] == c.causes[..i];
          i := i + 1;
        }
        assert c.causes[..i] == c.causes;
      } else {
        Append(Failure(name, ParameterRule(c), ""));
      }
    }

    method Append(f: Failure)
      modifies this
      ensures found == old(found) + [f]
      ensures FailureSet(found) == old(FailureSet(found)) + {FailureLeaf(f)}
    {
      found := found + [f];
    }

    /** collectFailures: flattens the tree, stopping at the first fault. */
    method Collect(e: Error) returns (fault: bool)
      modifies this
      ensures old(found) <= found
      ensures fault <==> FaultLeaf in Leaves(e)
      ensures !fault ==> FailureSet(found) == old(FailureSet(found)) + Leaves(e)
      decreases e
    {
      fault := false;
      match e
      case MultiError(errors) =>
        var i := 0;
        ghost var before := found;
        while i < |errors|
          invariant 0 <= i <= |errors| && before <= found
          invariant FaultLeaf !in AllLeaves(errors[..i])
          invariant FailureSet(found) == FailureSet(before) + AllLeaves(errors[..i])
        {
          fault := Collect(errors[i]);
          if fault {
            AllLeavesAre(errors, FaultLeaf);
            return;
          }
          assert errors[..i + 1][..i] == errors[..i];
          i := i + 1;
        }
        assert errors[..i] == errors;
      case ParameterError(name, cause) =>
        CollectParameter(name, cause);
        NoFaultInParameter(name, cause);
      case BodyError(cause) =>
        CollectBody(cause);
        NoFaultInBody(cause);
      case MediaTypeError(text) => Append(Failure("", "", text));
      case Fault(_) => fault := true;
    }
  }

  lemma {:induction false} NoFaultInBody(c: Cause)
    ensures FaultLeaf !in BodyLeaves(c)
    decreases c, 1
  {
    if c.Multi? { NoFaultInBodies(c.causes); }
  }

  lemma {:induction false} NoFaultInBodies(cs: seq<Cause>)
    ensures FaultLeaf !in AllBodyLeaves(cs)
    decreases cs, 0
  {
    if cs != [] {
      NoFaultInBodies(cs[..|cs| - 1]);
      NoFaultInBody(cs[|cs| - 1]);
    }
  }

  lemma {:induction false} NoFaultInParameter(name: string, c: Cause)
    ensures FaultLeaf !in ParameterLeaves(name, c)
    decreases c, 1
  {
    if c.Multi? { NoFaultInParameters(name, c.causes); }
  }

  lemma {:induction false} NoFaultInParameters(name: string, cs: seq<Cause>)
    ensures FaultLeaf !in AllParameterLeaves(name, cs)
    decreases cs, 0
  {
    if cs != [] {
      NoFaultInParameters(name, cs[..|cs| - 1]);
      NoFaultInParameter(name, cs[|cs| - 1]);
    }
  }

  // ------------------------------------------------------------ choosing

  /** A leaf naming a field, none less than it. */
  ghost predicate LeastNamed(leaves: set<Leaf>, f: Failure) {
    && FailureLeaf(f) in leaves
    && forall l :: l in leaves && l.FailureLeaf? ==> !Less(l.failure, f)
  }

  /** The reply, as a relation on the set of leaves alone: a fault, or nothing at
      all, over an undecodable body, over the least (field, rule). */
  ghost predicate Answers(leaves: set<Leaf>, reply: Reply) {
    if FaultLeaf in leaves || leaves == {} then reply == InternalError
    else if exists l :: l in leaves && l.FailureLeaf? && l.failure.undecodable != "" then reply == InvalidJsonBody
    else reply.Validation? && exists f :: LeastNamed(leaves, f) && reply == Validation(f.field, f.rule)
  }

  /** The set of leaves fixes the reply. */
  lemma AnswerUnique(leaves: set<Leaf>, a: Reply, b: Reply)
    requires Answers(leaves, a) && Answers(leaves, b)
    ensures a == b
  {
    if a.Validation? && b.Validation? {
      var f :| LeastNamed(leaves, f) && a == Validation(f.field, f.rule);
      var g :| LeastNamed(leaves, g) && b == Validation(g.field, g.rule);
      assert !Less(FailureLeaf(f).failure, g) && !Less(FailureLeaf(g).failure, f);
      LessTotal(f, g);
    }
  }

  /** writeOpenAPIValidationError's choice, past the unreachable security branch. */
  method Choose(e: Error) returns (reply: Reply)
    ensures Answers(Leaves(e), reply)
  {
    var collector := new Collector();
    var fault := collector.Collect(e);
    var found := collector.found;
    if fault || |found| == 0 { return InternalError; }
    assert FailureSet(found) == Leaves(e);
    assert FailureLeaf(found[0]) in Leaves(e);
    var i := 0;
    while i < |found|
      invariant 0 <= i <= |found|
      invariant forall k :: 0 <= k < i ==> found[k].undecodable == ""
    {
      if found[i].undecodable != "" {
        assert FailureLeaf(found[i]) in Leaves(e);
        return InvalidJsonBody;
      }
      i := i + 1;
    }
    var first := MinFunc(found);
    assert LeastNamed(Leaves(e), first);
    reply := Validation(first.field, first.rule);
  }

  /** slices.MinFunc: the first of the least elements. */
  method MinFunc(found: seq<Failure>) returns (first: Failure)
    requires |found| > 0
    ensures first in found && forall f :: f in found ==> !Less(f, first)
  {
    first := found[0];
    LessTotal(first, first);
    var i := 1;
    while i < |found|
      invariant 1 <= i <= |found|
      invariant first in found[..i]
      invariant forall k :: 0 <= k < i ==> !Less(found[k], first)
    {
      if Less(found[i], first) {
        forall k | 0 <= k < i ensures !Less(found[k], found[i]) {
          LessTotal(found[i], first);
          NotLessTransitive(found[i], first, found[k]);
        }
        first := found[i];
        LessTotal(first, first);
      }
      i := i + 1;
    }
  }

  /** A field reply is a leaf, and no leaf's field comes before its field, nor, on the
      same field, a leaf's rule before its rule. */
  lemma ReplyIsFirst(leaves: set<Leaf>, reply: Reply)
    requires Answers(leaves, reply) && reply.Validation?
    ensures exists f :: FailureLeaf(f) in leaves && reply == Validation(f.field, f.rule)
    ensures forall l :: l in leaves && l.FailureLeaf? ==>
              && !Precedes(l.failure.field, reply.field)
              && (l.failure.field == reply.field ==> !Precedes(l.failure.rule, reply.rule))
  {
    var f :| LeastNamed(leaves, f) && reply == Validation(f.field, f.rule);
    forall l | l in leaves && l.FailureLeaf?
      ensures !Precedes(l.failure.field, reply.field)
      ensures l.failure.field == reply.field ==> !Precedes(l.failure.rule, reply.rule)
    {
      StringLessIsPrecedes(l.failure.field, f.field);
      StringLessIsPrecedes(l.failure.rule, f.rule);
    }
  }

  /** The rules the contract speaks of, by the keyword broken. */
  ghost predicate Rules(keyword: string, format: string, rule: string) {
    || (rule == "required" && keyword == "required")
    || (rule == "min" && keyword in {"minLength", "minimum", "exclusiveMinimum", "minItems", "minProperties"})
    || (rule == "max" && keyword in {"maxLength", "maximum", "exclusiveMaximum", "maxItems", "maxProperties"})
    || (rule == "pattern" && keyword == "pattern")
    || (rule == "email" && keyword == "format" && format == "email")
  }

  /** A field's name: its path from the body, joined by dots. */
  function Dotted(path: seq<string>): string
    requires path != []
  {
    if |path| == 1 then path[0] else Dotted(path[..|path| - 1]) + "." + path[|path| - 1]
  }

  lemma {:induction false} JoinedLast(path: seq<string>, last: string, sep: string)
    requires path != []
    ensures JoinPointer(path + [last], sep) == JoinPointer(path, sep) + sep + last
  {
    var all := path + [last];
    if |path| == 1 {
      assert all[1..] == [last] && all[0] == path[0];
    } else {
      JoinedLast(path[1..], last, sep);
      assert all[1..] == path[1..] + [last] && all[0] == path[0];
    }
  }

  lemma {:induction false} JoinIsDotted(path: seq<string>)
    requires path != []
    ensures JoinPointer(path, ".") == Dotted(path)
  {
    if |path| > 1 {
      var init := path[..|path| - 1];
      JoinIsDotted(init);
      JoinedLast(init, path[|path| - 1], ".");
      assert init + [path[|path| - 1]] == path;
    }
  }

  /** What a single broken keyword on a body's field, at any depth, is answered with: the
      field's dotted name and the keyword's rule, or that the body does not decode. */
  lemma BrokenKeywordReply(keyword: string, format: string, path: seq<string>, rule: string, reply: Reply)
    requires path != [] && Answers(Leaves(BodyError(Schema(keyword, format, path))), reply)
    ensures Rules(keyword, format, rule) ==> reply == Validation(Dotted(path), rule)
    ensures (!exists r :: Rules(keyword, format, r)) ==> reply == InvalidJsonBody
  {
    var f := BodyLeaf(Schema(keyword, format, path));
    RuleOfKeyword(keyword, format);
    JoinIsDotted(path);
    OneLeaf(f, reply);
    if ConstraintRule(keyword, format) == "" { UndecodableIsNamed(keyword, path); }
  }

  /** And on a parameter: its rule, or "invalid". */
  lemma BrokenParameterReply(keyword: string, format: string, at: seq<string>, name: string, rule: string, reply: Reply)
    requires Answers(Leaves(ParameterError(name, Schema(keyword, format, at))), reply)
    ensures Rules(keyword, format, rule) ==> reply == Validation(name, rule)
    ensures (!exists r :: Rules(keyword, format, r)) ==> reply == Validation(name, "invalid")
  {
    RuleOfKeyword(keyword, format);
    OneLeaf(Failure(name, ParameterRule(Schema(keyword, format, at)), ""), reply);
  }

  /** A missing parameter is "required", one that does not parse "invalid"; a missing or
      unparsable body, a body broken as a whole, or an unlisted media type, is a body
      that does not decode. */
  lemma OtherReplies(name: string, text: string, keyword: string, format: string,
                     a: Reply, b: Reply, d: Reply, e: Reply)
    requires text != ""
    ensures Answers(Leaves(ParameterError(name, Required)), a) ==> a == Validation(name, "required")
    ensures Answers(Leaves(ParameterError(name, Opaque(text))), b) ==> b == Validation(name, "invalid")
    ensures Answers(Leaves(BodyError(Required)), d) ==> d == InvalidJsonBody
    ensures Answers(Leaves(BodyError(Opaque(text))), d) ==> d == InvalidJsonBody
    ensures Answers(Leaves(BodyError(Schema(keyword, format, []))), e) ==> e == InvalidJsonBody
    ensures Answers(Leaves(MediaTypeError(text)), e) ==> e == InvalidJsonBody
  {
    if Answers(Leaves(ParameterError(name, Required)), a) { OneLeaf(Failure(name, "required", ""), a); }
    if Answers(Leaves(ParameterError(name, Opaque(text))), b) { OneLeaf(Failure(name, "invalid", ""), b); }
    if Answers(Leaves(BodyError(Required)), d) { OneLeaf(BodyLeaf(Required), d); }
    if Answers(Leaves(BodyError(Opaque(text))), d) { OneLeaf(BodyLeaf(Opaque(text)), d); }
    if Answers(Leaves(BodyError(Schema(keyword, format, []))), e) {
      OneLeaf(BodyLeaf(Schema(keyword, format, [])), e);
      UndecodableIsNamed(keyword, []);
    }
    if Answers(Leaves(MediaTypeError(text)), e) { OneLeaf(Failure("", "", text), e); }
  }

  lemma OneLeaf(f: Failure, reply: Reply)
    requires Answers({FailureLeaf(f)}, reply)
    ensures reply == if f.undecodable != "" then InvalidJsonBody else Validation(f.field, f.rule)
  {
    assert FailureLeaf(f) in {FailureLeaf(f)};
  }

  lemma RuleOfKeyword(keyword: string, format: string)
    ensures forall rule :: Rules(keyword, format, rule) ==> ConstraintRule(keyword, format) == rule
    ensures ConstraintRule(keyword, format) != "" ==> Rules(keyword, format, ConstraintRule(keyword, format))
  {
  }

  lemma UndecodableIsNamed(keyword: string, path: seq<string>)
    ensures keyword + " at /" + JoinPointer(path, "/") != ""
  {
    assert |keyword + " at /" + JoinPointer(path, "/")| >= 5;
  }

  /** Any reordering, re-nesting or repetition of the same leaves gets one reply. */
  lemma SameLeavesSameReply(e1: Error, e2: Error, a: Reply, b: Reply)
    requires Leaves(e1) == Leaves(e2) && Answers(Leaves(e1), a) && Answers(Leaves(e2), b)
    ensures a == b
  {
    AnswerUnique(Leaves(e1), a, b);
  }

  /** Reordering or repeating the members of a MultiError keeps its leaves. */
  lemma ReorderingKeepsLeaves(es: seq<Error>, fs: seq<Error>)
    requires forall e :: e in es <==> e in fs
    ensures Leaves(MultiError(es)) == Leaves(MultiError(fs))
  {
    forall l ensures l in AllLeaves(es) <==> l in AllLeaves(fs) {
      AllLeavesAre(es, l);
      AllLeavesAre(fs, l);
      if i :| 0 <= i < |es| && l in Leaves(es[i]) { assert es[i] in fs; }
      if i :| 0 <= i < |fs| && l in Leaves(fs[i]) { assert fs[i] in es; }
    }
  }

  lemma {:induction false} AllLeavesAppend(a: seq<Error>, b: seq<Error>)
    ensures AllLeaves(a + b) == AllLeaves(a) + AllLeaves(b)
  {
    if b == [] {
      assert a + b == a;
    } else {
      var init := b[..|b| - 1];
      AllLeavesAppend(a, init);
      assert (a + b)[..|a + b| - 1] == a + init;
    }
  }

  /** Nesting some members in a MultiError of their own keeps its leaves. */
  lemma RenestingKeepsLeaves(a: seq<Error>, b: seq<Error>, c: seq<Error>)
    ensures Leaves(MultiError(a + [MultiError(b)] + c)) == Leaves(MultiError(a + b + c))
  {
    AllLeavesAppend(a + [MultiError(b)], c);
    AllLeavesAppend(a, [MultiError(b)]);
    AllLeavesAppend(a + b, c);
    AllLeavesAppend(a, b);
    assert [MultiError(b)][..0] == [];
  }

  function AsBodyErrors(cs: seq<Cause>): seq<Error> {
    if cs == [] then [] else AsBodyErrors(cs[..|cs| - 1]) + [BodyError(cs[|cs| - 1])]
  }

  /** Splitting a body's causes over several body errors keeps the leaves. */
  lemma {:induction false} SplittingBodyKeepsLeaves(cs: seq<Cause>)
    ensures AllLeaves(AsBodyErrors(cs)) == AllBodyLeaves(cs) == Leaves(BodyError(Multi(cs)))
  {
    assert BodyLeaves(Multi(cs)) == AllBodyLeaves(cs);
    if cs != [] {
      var init, es := cs[..|cs| - 1], AsBodyErrors(cs);
      SplittingBodyKeepsLeaves(init);
      assert es[..|es| - 1] == AsBodyErrors(init);
      assert Leaves(es[|es| - 1]) == BodyLeaves(cs[|cs| - 1]);
    }
  }

  function AsParameterErrors(name: string, cs: seq<Cause>): seq<Error> {
    if cs == [] then [] else AsParameterErrors(name, cs[..|cs| - 1]) + [ParameterError(name, cs[|cs| - 1])]
  }

  /** Splitting a parameter's causes over several errors of that parameter does too. */
  lemma {:induction false} SplittingParameterKeepsLeaves(name: string, cs: seq<Cause>)
    ensures AllLeaves(AsParameterErrors(name, cs)) == AllParameterLeaves(name, cs)
            == Leaves(ParameterError(name, Multi(cs)))
  {
    assert ParameterLeaves(name, Multi(cs)) == AllParameterLeaves(name, cs);
    if cs != [] {
      var init, es := cs[..|cs| - 1], AsParameterErrors(name, cs);
      SplittingParameterKeepsLeaves(name, init);
      assert es[..|es| - 1] == AsParameterErrors(name, init);
      assert Leaves(es[|es| - 1]) == ParameterLeaves(name, cs[|cs| - 1]);
    }
  }

  lemma {:induction false} MembersOfBody(cs: seq<Cause>, e: Error)
    ensures e in AsBodyErrors(cs) <==> e.BodyError? && e.cause in cs
  {
    if cs != [] {
      var init := cs[..|cs| - 1];
      MembersOfBody(init, e);
      assert cs == init + [cs[|cs| - 1]];
    }
  }

  lemma {:induction false} MembersOfParameter(name: string, cs: seq<Cause>, e: Error)
    ensures e in AsParameterErrors(name, cs) <==> e.ParameterError? && e.name == name && e.cause in cs
  {
    if cs != [] {
      var init := cs[..|cs| - 1];
      MembersOfParameter(name, init, e);
      assert cs == init + [cs[|cs| - 1]];
    }
  }

  /** Reordering or repeating causes below a body or a parameter keeps the leaves. */
  lemma ReorderingCausesKeepsLeaves(name: string, cs: seq<Cause>, ds: seq<Cause>)
    requires forall c :: c in cs <==> c in ds
    ensures Leaves(BodyError(Multi(cs))) == Leaves(BodyError(Multi(ds)))
    ensures Leaves(ParameterError(name, Multi(cs))) == Leaves(ParameterError(name, Multi(ds)))
  {
    forall e ensures e in AsBodyErrors(cs) <==> e in AsBodyErrors(ds) {
      MembersOfBody(cs, e);
      MembersOfBody(ds, e);
    }
    forall e ensures e in AsParameterErrors(name, cs) <==> e in AsParameterErrors(name, ds) {
      MembersOfParameter(name, cs, e);
      MembersOfParameter(name, ds, e);
    }
    ReorderingKeepsLeaves(AsBodyErrors(cs), AsBodyErrors(ds));
    ReorderingKeepsLeaves(AsParameterErrors(name, cs), AsParameterErrors(name, ds));
    SplittingBodyKeepsLeaves(cs);
    SplittingBodyKeepsLeaves(ds);
    SplittingParameterKeepsLeaves(name, cs);
    SplittingParameterKeepsLeaves(name, ds);
  }

  lemma {:induction false} CausesAppend(name: string, a: seq<Cause>, b: seq<Cause>)
    ensures AllBodyLeaves(a + b) == AllBodyLeaves(a) + AllBodyLeaves(b)
    ensures AllParameterLeaves(name, a + b) == AllParameterLeaves(name, a) + AllParameterLeaves(name, b)
  {
    if b == [] {
      assert a + b == a;
    } else {
      CausesAppend(name, a, b[..|b| - 1]);
      assert (a + b)[..|a + b| - 1] == a + b[..|b| - 1];
    }
  }

  /** And so does nesting some of them in a MultiError of their own. */
  lemma RenestingCausesKeepsLeaves(name: string, a: seq<Cause>, b: seq<Cause>, d: seq<Cause>)
    ensures Leaves(BodyError(Multi(a + [Multi(b)] + d))) == Leaves(BodyError(Multi(a + b + d)))
    ensures Leaves(ParameterError(name, Multi(a + [Multi(b)] + d))) == Leaves(ParameterError(name, Multi(a + b + d)))
  {
    CausesAppend(name, a + [Multi(b)], d);
    CausesAppend(name, a, [Multi(b)]);
    CausesAppend(name, a + b, d);
    CausesAppend(name, a, b);
    NestedAlone(name, b);
    MultiLeaves(name, a + [Multi(b)] + d);
    MultiLeaves(name, a + b + d);
  }

  lemma NestedAlone(name: string, b: seq<Cause>)
    ensures AllBodyLeaves([Multi(b)]) == AllBodyLeaves(b)
    ensures AllParameterLeaves(name, [Multi(b)]) == AllParameterLeaves(name, b)
  {
    var one := [Multi(b)];
    assert one[..0] == [] && one[0].causes == b;
    MultiLeaves(name, b);
  }

  lemma MultiLeaves(name: string, cs: seq<Cause>)
    ensures Leaves(BodyError(Multi(cs))) == BodyLeaves(Multi(cs)) == AllBodyLeaves(cs)
    ensures Leaves(ParameterError(name, Multi(cs))) == ParameterLeaves(name, Multi(cs)) == AllParameterLeaves(name, cs)
  {
  }

  // ------------------------------------------------------------ at every depth

  /** Causes with the same leaves one by one have the same leaves together. */
  lemma {:induction false} CausesCongruent(name: string, cs: seq<Cause>, ds: seq<Cause>)
    requires |cs| == |ds|
    requires forall i :: 0 <= i < |cs| ==>
               BodyLeaves(cs[i]) == BodyLeaves(ds[i]) && ParameterLeaves(name, cs[i]) == ParameterLeaves(name, ds[i])
    ensures AllBodyLeaves(cs) == AllBodyLeaves(ds) && AllParameterLeaves(name, cs) == AllParameterLeaves(name, ds)
  {
    if cs != [] {
      var cs', ds' := cs[..|cs| - 1], ds[..|ds| - 1];
      forall i | 0 <= i < |cs'|
        ensures BodyLeaves(cs'[i]) == BodyLeaves(ds'[i])
        ensures ParameterLeaves(name, cs'[i]) == ParameterLeaves(name, ds'[i])
      {
        assert cs'[i] == cs[i] && ds'[i] == ds[i];
      }
      CausesCongruent(name, cs', ds');
    }
  }

  /** And so do errors. */
  lemma {:induction false} ErrorsCongruent(es: seq<Error>, fs: seq<Error>)
    requires |es| == |fs| && forall i :: 0 <= i < |es| ==> Leaves(es[i]) == Leaves(fs[i])
    ensures AllLeaves(es) == AllLeaves(fs)
  {
    if es != [] {
      var es', fs' := es[..|es| - 1], fs[..|fs| - 1];
      forall i | 0 <= i < |es'| ensures Leaves(es'[i]) == Leaves(fs'[i]) {
        assert es'[i] == es[i] && fs'[i] == fs[i];
      }
      ErrorsCongruent(es', fs');
    }
  }

  /** How one cause may be rearranged into another: not at all, in steps, backwards,
      by reordering or repeating members, by nesting some of them, or so within one
      member, to any depth. */
  datatype CauseMove =
    | KeepCause
    | CauseSteps(first: CauseMove, mid: Cause, second: CauseMove)
    | UndoCause(undone: CauseMove)
    | ReorderCauses
    | NestCauses(a: seq<Cause>, b: seq<Cause>, d: seq<Cause>)
    | WithinCause(i: nat, inner: CauseMove)

  ghost predicate CauseMoves(m: CauseMove, c: Cause, d: Cause)
    decreases m
  {
    match m
    case KeepCause => c == d
    case CauseSteps(first, mid, second) => CauseMoves(first, c, mid) && CauseMoves(second, mid, d)
    case UndoCause(undone) => CauseMoves(undone, d, c)
    case ReorderCauses => c.Multi? && d.Multi? && forall x :: x in c.causes <==> x in d.causes
    case NestCauses(a, b, rest) => c == Multi(a + b + rest) && d == Multi(a + [Multi(b)] + rest)
    case WithinCause(i, inner) =>
      && c.Multi? && d.Multi? && |c.causes| == |d.causes| && i < |c.causes|
      && d.causes == c.causes[i := d.causes[i]]
      && CauseMoves(inner, c.causes[i], d.causes[i])
  }

  lemma {:induction false} CauseMovesKeepLeaves(name: string, m: CauseMove, c: Cause, d: Cause)
    requires CauseMoves(m, c, d)
    ensures BodyLeaves(c) == BodyLeaves(d) && ParameterLeaves(name, c) == ParameterLeaves(name, d)
    decreases m
  {
    match m
    case KeepCause =>
    case CauseSteps(first, mid, second) =>
      CauseMovesKeepLeaves(name, first, c, mid);
      CauseMovesKeepLeaves(name, second, mid, d);
    case UndoCause(undone) => CauseMovesKeepLeaves(name, undone, d, c);
    case ReorderCauses =>
      ReorderingCausesKeepsLeaves(name, c.causes, d.causes);
      MultiLeaves(name, c.causes);
      MultiLeaves(name, d.causes);
    case NestCauses(a, b, rest) =>
      RenestingCausesKeepsLeaves(name, a, b, rest);
      MultiLeaves(name, c.causes);
      MultiLeaves(name, d.causes);
    case WithinCause(i, inner) =>
      CauseMovesKeepLeaves(name, inner, c.causes[i], d.causes[i]);
      CausesCongruent(name, c.causes, d.causes);
      MultiLeaves(name, c.causes);
      MultiLeaves(name, d.causes);
  }

  /** The same of errors, which may also have the causes below a body or a parameter
      rearranged, or split over several errors of it. */
  datatype Move =
    | Keep
    | Steps(first: Move, mid: Error, second: Move)
    | Undo(undone: Move)
    | Reorder
    | Nest(a: seq<Error>, b: seq<Error>, d: seq<Error>)
    | Within(i: nat, inner: Move)
    | BelowBody(causes: CauseMove)
    | BelowParameter(causes: CauseMove)
    | SplitBody
    | SplitParameter

  ghost predicate Moves(m: Move, e: Error, f: Error)
    decreases m
  {
    match m
    case Keep => e == f
    case Steps(first, mid, second) => Moves(first, e, mid) && Moves(second, mid, f)
    case Undo(undone) => Moves(undone, f, e)
    case Reorder => e.MultiError? && f.MultiError? && forall x :: x in e.errors <==> x in f.errors
    case Nest(a, b, rest) => e == MultiError(a + b + rest) && f == MultiError(a + [MultiError(b)] + rest)
    case Within(i, inner) =>
      && e.MultiError? && f.MultiError? && |e.errors| == |f.errors| && i < |e.errors|
      && f.errors == e.errors[i := f.errors[i]]
      && Moves(inner, e.errors[i], f.errors[i])
    case BelowBody(causes) => e.BodyError? && f.BodyError? && CauseMoves(causes, e.cause, f.cause)
    case BelowParameter(causes) =>
      e.ParameterError? && f.ParameterError? && e.name == f.name && CauseMoves(causes, e.cause, f.cause)
    case SplitBody => e.BodyError? && e.cause.Multi? && f == MultiError(AsBodyErrors(e.cause.causes))
    case SplitParameter =>
      e.ParameterError? && e.cause.Multi? && f == MultiError(AsParameterErrors(e.name, e.cause.causes))
  }

  /** Any such rearrangement, at any depth, keeps the leaves. */
  lemma {:induction false} MovesKeepLeaves(m: Move, e: Error, f: Error)
    requires Moves(m, e, f)
    ensures Leaves(e) == Leaves(f)
    decreases m
  {
    match m
    case Keep =>
    case Steps(first, mid, second) =>
      MovesKeepLeaves(first, e, mid);
      MovesKeepLeaves(second, mid, f);
    case Undo(undone) => MovesKeepLeaves(undone, f, e);
    case Reorder => ReorderingKeepsLeaves(e.errors, f.errors);
    case Nest(a, b, rest) => RenestingKeepsLeaves(a, b, rest);
    case Within(i, inner) =>
      MovesKeepLeaves(inner, e.errors[i], f.errors[i]);
      ErrorsCongruent(e.errors, f.errors);
    case BelowBody(causes) => CauseMovesKeepLeaves("", causes, e.cause, f.cause);
    case BelowParameter(causes) => CauseMovesKeepLeaves(e.name, causes, e.cause, f.cause);
    case SplitBody => SplittingBodyKeepsLeaves(e.cause.causes);
    case SplitParameter => SplittingParameterKeepsLeaves(e.name, e.cause.causes);
  }

  /** So a tree and any rearrangement of it get one reply. */
  lemma RearrangedSameReply(m: Move, e: Error, f: Error, a: Reply, b: Reply)
    requires Moves(m, e, f) && Answers(Leaves(e), a) && Answers(Leaves(f), b)
    ensures a == b
  {
    MovesKeepLeaves(m, e, f);
    SameLeavesSameReply(e, f, a, b);
  }
}
