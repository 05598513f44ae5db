/**
 * Exception types, exception instances and the ancestry test that decides
 * whether a thrown instance is caught by a handler declared for a type
 * (src/exception.h:13-22, src/exception.c:10-18 and 35-48).
 */
module Exceptions {

  import opened Wrappers

  /** The C `uint64_t` of a type code. */
  newtype u64 = x: int | 0 <= x < 0x1_0000_0000_0000_0000

  /** Code of the root type `Exception`: all 64 bits set. */
  const ROOT_CODE: u64 := 0xFFFF_FFFF_FFFF_FFFF

  /**
   * An exception type. `parent` is the pointer to the parent type, NULL for a
   * type without one. As a datatype the parent chain is finite and acyclic.
   */
  datatype ExceptionType = ExceptionType(name: string, code: u64, parent: Option<ExceptionType>)

  /** An instance holds its type by value and a message that may be NULL. */
  datatype ExceptionInstance = ExceptionInstance(typ: ExceptionType, message: Option<string>)

  /** The root type, defined with the all-ones code and no parent. */
  const Root: ExceptionType := ExceptionType("Exception", ROOT_CODE, None)

  /** `exceptionNew`: an instance built from its type and message. */
  function New(typ: ExceptionType, message: Option<string>): (e: ExceptionInstance)
    ensures e.typ == typ && e.message == message
  {
    ExceptionInstance(typ, message)
  }

  /** The types reached by following `parent` from `p`, nearest first. */
  function Chain(p: Option<ExceptionType>): (chain: seq<ExceptionType>)
  {
    match p
    case None => []
    case Some(t) => [t] + Chain(t.parent)
  }

  /** The strict ancestors of `t`, nearest first. */
  function Ancestors(t: ExceptionType): (ancestors: seq<ExceptionType>)
  {
    Chain(t.parent)
  }

  /** Some type on the chain starting at `p` carries `code`. */
  predicate InChain(p: Option<ExceptionType>, code: u64)
  {
    match p
    case None => false
    case Some(t) => t.code == code || InChain(t.parent, code)
  }

  /**
   * The reference definition of `exceptionInstanceOf`: the codes are equal,
   * or the target is the root, or an ancestor carries the target's code.
   */
  predicate Matches(e: ExceptionInstance, target: ExceptionType)
  {
    e.typ.code == target.code || target.code == ROOT_CODE || InChain(e.typ.parent, target.code)
  }

  /** `exceptionInstanceOf`: the early test, then the walk up the parent chain. */
  method InstanceOf(e: ExceptionInstance, target: ExceptionType) returns (b: bool)
    ensures b == Matches(e, target)
  {
    if e.typ.code == target.code || target.code == ROOT_CODE {
      return true;
    }
    var parent := e.typ.parent;
    while parent.Some?
      invariant InChain(e.typ.parent, target.code) == InChain(parent, target.code)
      decreases parent
    {
      if parent.value.code == target.code {
        return true;
      }
      parent := parent.value.parent;
    }
    return false;
  }

  /** `InChain` says exactly that some type on the chain has the code. */
  lemma ChainHasCode(p: Option<ExceptionType>, code: u64)
    ensures InChain(p, code) <==> exists i :: 0 <= i < |Chain(p)| && Chain(p)[i].code == code
  {
    if InChain(p, code) {
      var i := CodeOnChain(p, code);
      assert Chain(p)[i].code == code;
    }
    if exists i :: 0 <= i < |Chain(p)| && Chain(p)[i].code == code {
      var i :| 0 <= i < |Chain(p)| && Chain(p)[i].code == code;
      CodeOnChainIsFound(p, code, i);
    }
  }

  /** When `InChain` holds, the position on the chain of a type carrying the code. */
  lemma {:induction false} CodeOnChain(p: Option<ExceptionType>, code: u64) returns (i: nat)
    requires InChain(p, code)
    ensures i < |Chain(p)| && Chain(p)[i].code == code
  {
    var t := p.value;
    assert Chain(p) == [t] + Chain(t.parent);
    if t.code == code {
      i := 0;
    } else {
      var j := CodeOnChain(t.parent, code);
      i := j + 1;
    }
  }

  /** A type on the chain that carries the code makes `InChain` hold. */
  lemma {:induction false} CodeOnChainIsFound(p: Option<ExceptionType>, code: u64, i: nat)
    requires i < |Chain(p)| && Chain(p)[i].code == code
    ensures InChain(p, code)
  {
    var t := p.value;
    assert Chain(p) == [t] + Chain(t.parent);
    if i > 0 {
      CodeOnChainIsFound(t.parent, code, i - 1);
    }
  }

  /** Matching looks at type codes only: the message plays no part. */
  lemma MatchingIgnoresMessage(t: ExceptionType, m1: Option<string>, m2: Option<string>, target: ExceptionType)
    ensures Matches(New(t, m1), target) == Matches(New(t, m2), target)
  {
  }

  /** An instance is caught by a handler for its own type, and by one for the root. */
  lemma OwnTypeAndRootMatch(t: ExceptionType, m: Option<string>)
    ensures Matches(New(t, m), t)
    ensures Matches(New(t, m), Root)
  {
  }

  /** An instance is caught by a handler declared for any of its type's ancestors. */
  lemma {:induction false} AncestorHandlerMatches(t: ExceptionType, m: Option<string>, i: nat)
    requires i < |Ancestors(t)|
    ensures Matches(New(t, m), Ancestors(t)[i])
  {
    var c := Chain(t.parent);
    assert Ancestors(t) == c;
    CodeOnChainIsFound(t.parent, c[i].code, i);
  }

  /** The codes of `t` and of all its ancestors are pairwise distinct. */
  predicate DistinctCodes(t: ExceptionType)
  {
    var c := [t] + Ancestors(t);
    forall i, j :: 0 <= i < j < |c| ==> c[i].code != c[j].code
  }

  /** The chain above an ancestor is a suffix of the chain above its descendant. */
  lemma {:induction false} AncestorChainSuffix(p: Option<ExceptionType>, i: nat)
    requires i < |Chain(p)|
    ensures Chain(p)[i + 1..] == Ancestors(Chain(p)[i])
  {
    match p
    case Some(t) =>
      if i > 0 {
        AncestorChainSuffix(t.parent, i - 1);
        assert Chain(p)[i + 1..] == Chain(t.parent)[i..];
      }
  }

  /**
   * With distinct codes and a type that is not the root, an instance of one
   * of its ancestors is not caught by a handler declared for the type itself.
   */
  lemma AncestorDoesNotMatchDescendant(t: ExceptionType, i: nat, m: Option<string>)
    requires DistinctCodes(t) && t.code != ROOT_CODE
    requires i < |Ancestors(t)|
    ensures !Matches(New(Ancestors(t)[i], m), t)
  {
    var a := Ancestors(t)[i];
    var c := [t] + Ancestors(t);
    assert c[i + 1] == a;
    AncestorChainSuffix(t.parent, i);
    ChainHasCode(a.parent, t.code);
    assert a.code != t.code by { assert c[0] == t; }
    assert !InChain(a.parent, t.code) by {
      forall j | 0 <= j < |Chain(a.parent)|
        ensures Chain(a.parent)[j].code != t.code
      {
        assert c[i + 2 + j] == Chain(a.parent)[j];
        assert c[0] == t;
      }
    }
  }
}
