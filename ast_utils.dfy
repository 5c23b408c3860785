/** The two visitors over the IR: a seeker that counts the breaks to one
    label, and the effect analyzer. Both are driven by a post-order walk,
    which descends into a node's children in order and then calls the
    node's visitor. */
module AstUtils {
  import opened Wasm
  import opened EffectSummary

  // ---------------------------------------------------------------------
  // Branch-target seeker

  /** The number of `Break` nodes in `e` whose label is `target`. */
  function CountBreaks(e: Expression, target: Name): nat
    decreases e
  {
    CountBreaksOf(e.children, target) + (if e.kind == Break(target) then 1 else 0)
  }

  function CountBreaksOf(es: seq<Expression>, target: Name): nat
    decreases es
  {
    if es == [] then 0
    else CountBreaksOf(es[..|es| - 1], target) + CountBreaks(es[|es| - 1], target)
  }

  /** Some break is counted exactly when a `Break` to `target` occurs in the
      tree; a `Switch` naming `target` is not one. */
  lemma {:induction false} CountBreaksPositive(e: Expression, target: Name)
    ensures CountBreaks(e, target) > 0 <==> Break(target) in Kinds(e)
    decreases e
  {
    CountBreaksOfPositive(e.children, target);
  }

  lemma {:induction false} CountBreaksOfPositive(es: seq<Expression>, target: Name)
    ensures CountBreaksOf(es, target) > 0 <==> Break(target) in KindsOf(es)
    decreases es
  {
    if es != [] {
      CountBreaksOfPositive(es[..|es| - 1], target);
      CountBreaksPositive(es[|es| - 1], target);
    }
  }

  class BreakSeeker {
    const target: Name
    var found: nat

    constructor (target: Name)
      ensures this.target == target && found == 0
    {
      this.target := target;
      found := 0;
    }

    method VisitBreak(name: Name)
      modifies this
      ensures found == old(found) + (if name == target then 1 else 0)
    {
      if name == target {
        found := found + 1;
      }
    }

    /** The post-descent dispatch: only `Break` has a visitor. */
    method Visit(curr: Expression)
      modifies this
      ensures found == old(found) + (if curr.kind == Break(target) then 1 else 0)
    {
      if curr.kind.Break? {
        VisitBreak(curr.kind.name);
      }
    }

    /** Post-order walk of `tree`. */
    method Walk(tree: Expression)
      modifies this
      ensures found == old(found) + CountBreaks(tree, target)
      ensures old(found) <= found
      decreases tree
    {
      var children := tree.children;
      var i := 0;
      while i < |children|
        invariant 0 <= i <= |children|
        invariant found == old(found) + CountBreaksOf(children[..i], target)
      {
        Walk(children[i]);
        assert children[..i + 1][..i] == children[..i];
        i := i + 1;
      }
      assert children[..i] == children;
      Visit(tree);
    }

    /** Whether `tree` holds a `Break` to `target`. */
    static method Has(tree: Expression, target: Name) returns (r: bool)
      ensures r <==> Break(target) in Kinds(tree)
    {
      var seeker := new BreakSeeker(target);
      seeker.Walk(tree);
      CountBreaksPositive(tree, target);
      r := seeker.found > 0;
    }
  }

  // ---------------------------------------------------------------------
  // Effect analyzer

  class EffectAnalyzer {
    var branches: bool
    var calls: bool
    var localsRead: set<Name>
    var localsWritten: set<Name>
    var readsMemory: bool
    var writesMemory: bool

    /** The summary the fields hold. */
    function Summary(): Effects
      reads this
    {
      Effects(branches, calls, localsRead, localsWritten, readsMemory, writesMemory)
    }

    constructor ()
      ensures Summary() == None
    {
      branches, calls := false, false;
      localsRead, localsWritten := {}, {};
      readsMemory, writesMemory := false, false;
    }

    /** Whether these effects forbid moving past `other`'s. The local scan
        is reached only when the flags did not decide, and is then asserted
        to face at most one local access of this side. */
    method Invalidates(other: EffectAnalyzer) returns (r: bool)
      requires branches || other.branches
        || ((writesMemory || calls) && other.Summary().AccessesMemory())
        || (Summary().AccessesMemory() && (other.writesMemory || other.calls))
        || |localsWritten| + |localsRead| <= 1
      ensures r == Summary().Invalidates(other.Summary())
    {
      if branches || other.branches
         || ((writesMemory || calls) && other.Summary().AccessesMemory())
         || (Summary().AccessesMemory() && (other.writesMemory || other.calls)) {
        return true;
      }
      var pending := localsWritten;
      while pending != {}
        invariant pending <= localsWritten
        invariant forall n :: n in localsWritten && n !in pending ==>
                    n !in other.localsWritten && n !in other.localsRead
        decreases pending
      {
        var local :| local in pending;
        if local in other.localsWritten || local in other.localsRead {
          assert local in localsWritten * (other.localsWritten + other.localsRead);
          return true;
        }
        pending := pending - {local};
      }
      assert localsWritten * (other.localsWritten + other.localsRead) == {};
      pending := localsRead;
      while pending != {}
        invariant pending <= localsRead
        invariant forall n :: n in localsRead && n !in pending ==> n !in other.localsWritten
        decreases pending
      {
        var local :| local in pending;
        if local in other.localsWritten {
          assert local in localsRead * other.localsWritten;
          return true;
        }
        pending := pending - {local};
      }
      assert localsRead * other.localsWritten == {};
      return false;
    }

    /** The pre-descent hook: a loop's back edge is control flow recorded
        before its body is visited. */
    method CheckPre(curr: Expression) returns (r: bool)
      modifies this
      ensures r == curr.kind.Loop?
      ensures Summary() == if r then old(Summary()).(branches := true) else old(Summary())
    {
      if curr.kind.Loop? {
        branches := true;
        return true;
      }
      return false;
    }

    /** The post-descent hook: visit the node, then report whether anything
        has been recorded so far. */
    method CheckPost(curr: Expression) returns (r: bool)
      modifies this
      ensures Summary() == old(Summary()).Join(Rule(curr.kind))
      ensures r == Summary().HasAnything()
    {
      Visit(curr);
      r := Summary().HasAnything();
    }

    /** Post-order walk of `tree`. The fields only ever grow. */
    method Walk(tree: Expression)
      modifies this
      ensures Summary() == old(Summary()).Join(Analyze(tree))
      ensures old(Summary()).IsWithin(Summary())
      decreases tree
    {
      var children := tree.children;
      var i := 0;
      while i < |children|
        invariant 0 <= i <= |children|
        invariant Summary() == old(Summary()).Join(AnalyzeAll(children[..i]))
      {
        Walk(children[i]);
        assert children[..i + 1][..i] == children[..i];
        JoinAssociative(old(Summary()), AnalyzeAll(children[..i]), Analyze(children[i]));
        i := i + 1;
      }
      assert children[..i] == children;
      Visit(tree);
      JoinAssociative(old(Summary()), AnalyzeAll(children), Rule(tree.kind));
    }

    /** The post-descent dispatch on the node's kind. */
    method Visit(curr: Expression)
      modifies this
      ensures Summary() == old(Summary()).Join(Rule(curr.kind))
    {
      match curr.kind
      case Block(_) => VisitBlock();
      case Loop(_, _) => VisitLoop();
      case If => VisitIf();
      case Break(_) => VisitBreak();
      case Switch(_, _) => VisitSwitch();
      case Call(_) => VisitCall();
      case CallImport(_) => VisitCallImport();
      case CallIndirect => VisitCallIndirect();
      case GetLocal(name) => VisitGetLocal(name);
      case SetLocal(name) => VisitSetLocal(name);
      case Load => VisitLoad();
      case Store => VisitStore();
      case Return => VisitReturn();
      case Host => VisitHost();
      case Unreachable => VisitUnreachable();
      case Nop =>
      case Other =>
    }

    method VisitBlock()
      modifies this
      ensures Summary() == old(Summary()).(branches := true)
    {
      branches := true;
    }

    method VisitLoop()
      modifies this
      ensures Summary() == old(Summary()).(branches := true)
    {
      branches := true;
    }

    method VisitIf()
      modifies this
      ensures Summary() == old(Summary()).(branches := true)
    {
      branches := true;
    }

    method VisitBreak()
      modifies this
      ensures Summary() == old(Summary()).(branches := true)
    {
      branches := true;
    }

    method VisitSwitch()
      modifies this
      ensures Summary() == old(Summary()).(branches := true)
    {
      branches := true;
    }

    method VisitCall()
      modifies this
      ensures Summary() == old(Summary()).(calls := true)
    {
      calls := true;
    }

    method VisitCallImport()
      modifies this
      ensures Summary() == old(Summary()).(calls := true)
    {
      calls := true;
    }

    method VisitCallIndirect()
      modifies this
      ensures Summary() == old(Summary()).(calls := true)
    {
      calls := true;
    }

    method VisitGetLocal(name: Name)
      modifies this
      ensures Summary() == old(Summary()).(localsRead := old(localsRead) + {name})
    {
      localsRead := localsRead + {name};
    }

    method VisitSetLocal(name: Name)
      modifies this
      ensures Summary() == old(Summary()).(localsWritten := old(localsWritten) + {name})
    {
      localsWritten := localsWritten + {name};
    }

    method VisitLoad()
      modifies this
      ensures Summary() == old(Summary()).(readsMemory := true)
    {
      readsMemory := true;
    }

    method VisitStore()
      modifies this
      ensures Summary() == old(Summary()).(writesMemory := true)
    {
      writesMemory := true;
    }

    method VisitReturn()
      modifies this
      ensures Summary() == old(Summary()).(branches := true)
    {
      branches := true;
    }

    method VisitHost()
      modifies this
      ensures Summary() == old(Summary()).(calls := true)
    {
      calls := true;
    }

    method VisitUnreachable()
      modifies this
      ensures Summary() == old(Summary()).(branches := true)
    {
      branches := true;
    }
  }
}
