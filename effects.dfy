/** The effect summary that the effect analyzer accumulates, its derived
    predicates, the pairwise invalidation test, and the value the post-order
    analysis of a tree produces. */
module EffectSummary {
  import opened Wasm

  /** A conservative summary of what evaluating a fragment may do. */
  datatype Effects = Effects(
    branches: bool,
    calls: bool,
    localsRead: set<Name>,
    localsWritten: set<Name>,
    readsMemory: bool,
    writesMemory: bool)
  {
    /** Some local is read or written. */
    predicate AccessesLocal()
      ensures AccessesLocal() <==> localsRead != {} || localsWritten != {}
    {
      |localsRead| + |localsWritten| > 0
    }

    /** Memory may be touched; a call is assumed to touch it. */
    predicate AccessesMemory()
      ensures calls ==> AccessesMemory()
    {
      calls || readsMemory || writesMemory
    }

    /** Something outside the fragment's own value may change. */
    predicate HasSideEffects()
      ensures HasSideEffects() ==> HasAnything()
      ensures localsWritten != {} ==> HasSideEffects()
    {
      calls || |localsWritten| > 0 || writesMemory
    }

    /** Any effect at all was recorded. */
    predicate HasAnything()
      ensures !HasAnything() <==> this == None
    {
      branches || calls || AccessesLocal() || readsMemory || writesMemory
    }

    /** Whether these effects and `other`'s forbid moving the two fragments
        past each other: control flow on either side, a write or call on one
        side against any memory access on the other, or a local written on
        one side and read or written on the other. */
    predicate Invalidates(other: Effects) {
      branches || other.branches
      || ((writesMemory || calls) && other.AccessesMemory())
      || (AccessesMemory() && (other.writesMemory || other.calls))
      || localsWritten * (other.localsWritten + other.localsRead) != {}
      || localsRead * other.localsWritten != {}
    }

    /** Everything recorded here is also recorded in `other`. */
    predicate IsWithin(other: Effects) {
      (branches ==> other.branches)
      && (calls ==> other.calls)
      && localsRead <= other.localsRead
      && localsWritten <= other.localsWritten
      && (readsMemory ==> other.readsMemory)
      && (writesMemory ==> other.writesMemory)
    }

    /** The effects of running both fragments. */
    function Join(other: Effects): (j: Effects)
      ensures this.IsWithin(j) && other.IsWithin(j)
      ensures forall u: Effects :: this.IsWithin(u) && other.IsWithin(u) ==> j.IsWithin(u)
    {
      Effects(branches || other.branches, calls || other.calls,
              localsRead + other.localsRead, localsWritten + other.localsWritten,
              readsMemory || other.readsMemory, writesMemory || other.writesMemory)
    }
  }

  /** Joining in several steps is joining once. */
  lemma JoinAssociative(a: Effects, b: Effects, c: Effects)
    ensures a.Join(b).Join(c) == a.Join(b.Join(c))
  {
    assert (a.localsRead + b.localsRead) + c.localsRead == a.localsRead + (b.localsRead + c.localsRead);
    assert (a.localsWritten + b.localsWritten) + c.localsWritten == a.localsWritten + (b.localsWritten + c.localsWritten);
  }

  /** The summary of a fresh analyzer. */
  const None := Effects(false, false, {}, {}, false, false)

  // ---------------------------------------------------------------------
  // The invalidation test against an independent reference: the atomic
  // accesses of each side and a conflict relation between two of them.

  /** One atomic access a fragment may perform. */
  datatype Access =
    | Opaque                              // a call, whose callee is not looked at
    | Memory(write: bool)
    | Local(name: Name, write: bool)

  /** The atomic accesses a summary records. */
  function Accesses(e: Effects): set<Access> {
    (if e.calls then {Opaque} else {})
    + (if e.readsMemory then {Memory(false)} else {})
    + (if e.writesMemory then {Memory(true)} else {})
    + (set n | n in e.localsRead :: Local(n, false))
    + (set n | n in e.localsWritten :: Local(n, true))
  }

  /** Two accesses conflict when they may touch the same state and one of
      them may change it. */
  predicate Conflict(x: Access, y: Access) {
    match (x, y)
    case (Opaque, Opaque) => true
    case (Opaque, Memory(_)) => true
    case (Memory(_), Opaque) => true
    case (Memory(w1), Memory(w2)) => w1 || w2
    case (Local(n1, w1), Local(n2, w2)) => n1 == n2 && (w1 || w2)
    case (_, _) => false
  }

  lemma ConflictSymmetric(x: Access, y: Access)
    ensures Conflict(x, y) == Conflict(y, x)
  {
  }

  /** What it means for an access to be recorded in a summary. */
  lemma InAccesses(e: Effects, x: Access)
    ensures x in Accesses(e) <==>
      match x
      case Opaque => e.calls
      case Memory(w) => if w then e.writesMemory else e.readsMemory
      case Local(n, w) => n in (if w then e.localsWritten else e.localsRead)
  {
  }

  /** A conflicting pair of accesses makes the two sides invalidate. */
  lemma ConflictInvalidates(a: Effects, b: Effects, x: Access, y: Access)
    requires x in Accesses(a) && y in Accesses(b) && Conflict(x, y)
    ensures a.Invalidates(b)
  {
    InAccesses(a, x);
    InAccesses(b, y);
    if x.Local? && y.Local? {
      if x.write {
        assert x.name in a.localsWritten * (b.localsWritten + b.localsRead);
      } else {
        assert x.name in a.localsRead * b.localsWritten;
      }
    }
  }

  /** Invalidation without control flow is witnessed by a conflicting pair. */
  lemma InvalidatesHasConflict(a: Effects, b: Effects) returns (x: Access, y: Access)
    requires a.Invalidates(b) && !a.branches && !b.branches
    ensures x in Accesses(a) && y in Accesses(b) && Conflict(x, y)
  {
    if (a.writesMemory || a.calls) && b.AccessesMemory() {
      x := if a.calls then Opaque else Memory(true);
      y := if b.calls then Opaque else if b.writesMemory then Memory(true) else Memory(false);
    } else if a.AccessesMemory() && (b.writesMemory || b.calls) {
      x := if a.calls then Opaque else if a.writesMemory then Memory(true) else Memory(false);
      y := if b.calls then Opaque else Memory(true);
    } else if a.localsWritten * (b.localsWritten + b.localsRead) != {} {
      var n :| n in a.localsWritten * (b.localsWritten + b.localsRead);
      x := Local(n, true);
      y := if n in b.localsWritten then Local(n, true) else Local(n, false);
    } else {
      var n :| n in a.localsRead * b.localsWritten;
      x, y := Local(n, false), Local(n, true);
    }
    InAccesses(a, x);
    InAccesses(b, y);
  }

  /** Invalidation is exactly: control flow on either side, or some access
      of one side conflicting with some access of the other. */
  lemma InvalidatesIsConflict(a: Effects, b: Effects)
    ensures a.Invalidates(b) <==>
      a.branches || b.branches
      || exists x, y :: x in Accesses(a) && y in Accesses(b) && Conflict(x, y)
  {
    if exists x, y :: x in Accesses(a) && y in Accesses(b) && Conflict(x, y) {
      var x, y :| x in Accesses(a) && y in Accesses(b) && Conflict(x, y);
      ConflictInvalidates(a, b, x, y);
    }
    if a.Invalidates(b) && !a.branches && !b.branches {
      var x, y := InvalidatesHasConflict(a, b);
    }
  }

  /** The order of the two arguments does not matter. */
  lemma {:induction false} InvalidatesSymmetric(a: Effects, b: Effects)
    ensures a.Invalidates(b) == b.Invalidates(a)
  {
    InvalidatesIsConflict(a, b);
    InvalidatesIsConflict(b, a);
    if exists x, y :: x in Accesses(a) && y in Accesses(b) && Conflict(x, y) {
      var x, y :| x in Accesses(a) && y in Accesses(b) && Conflict(x, y);
      ConflictSymmetric(x, y);
      assert y in Accesses(b) && x in Accesses(a) && Conflict(y, x);
    }
    if exists y, x :: y in Accesses(b) && x in Accesses(a) && Conflict(y, x) {
      var y, x :| y in Accesses(b) && x in Accesses(a) && Conflict(y, x);
      ConflictSymmetric(y, x);
      assert x in Accesses(a) && y in Accesses(b) && Conflict(x, y);
    }
  }

  /** Control flow on either side always invalidates. */
  lemma BranchesInvalidate(a: Effects, b: Effects)
    requires a.branches || b.branches
    ensures a.Invalidates(b) && b.Invalidates(a)
  {
  }

  /** A call on one side invalidates any memory access, and any call, on the
      other side. */
  lemma CallsInvalidateMemory(a: Effects, b: Effects)
    requires a.calls && b.AccessesMemory()
    ensures a.Invalidates(b) && b.Invalidates(a)
  {
  }

  /** Fragments that at most read memory and locals never invalidate each
      other, whatever they read. */
  lemma ReadsNeverInvalidate(a: Effects, b: Effects)
    requires !a.branches && !a.calls && !a.writesMemory && a.localsWritten == {}
    requires !b.branches && !b.calls && !b.writesMemory && b.localsWritten == {}
    ensures !a.Invalidates(b)
  {
  }

  /** Without control flow and memory conflicts, invalidation is decided by
      the locals alone: a local written on one side and read or written on
      the other. */
  lemma {:induction false} LocalHazards(a: Effects, b: Effects)
    requires !a.branches && !b.branches
    requires !a.AccessesMemory() && !b.AccessesMemory()
    ensures a.Invalidates(b) <==>
      exists n :: (n in a.localsWritten && (n in b.localsRead || n in b.localsWritten))
               || (n in a.localsRead && n in b.localsWritten)
  {
    if a.localsWritten * (b.localsWritten + b.localsRead) != {} {
      var n :| n in a.localsWritten * (b.localsWritten + b.localsRead);
      assert n in a.localsWritten && (n in b.localsRead || n in b.localsWritten);
    }
    if a.localsRead * b.localsWritten != {} {
      var n :| n in a.localsRead * b.localsWritten;
      assert n in a.localsRead && n in b.localsWritten;
    }
    if n :| (n in a.localsWritten && (n in b.localsRead || n in b.localsWritten))
          || (n in a.localsRead && n in b.localsWritten) {
      if n in a.localsWritten && (n in b.localsRead || n in b.localsWritten) {
        assert n in a.localsWritten * (b.localsWritten + b.localsRead);
      } else {
        assert n in a.localsRead * b.localsWritten;
      }
    }
  }

  // ---------------------------------------------------------------------
  // The post-order analysis of a tree.

  /** What the post-descent visitor of a node of kind `k` records. */
  function Rule(k: Kind): Effects {
    match k
    case Block(_) => None.(branches := true)
    case Loop(_, _) => None.(branches := true)
    case If => None.(branches := true)
    case Break(_) => None.(branches := true)
    case Switch(_, _) => None.(branches := true)
    case Call(_) => None.(calls := true)
    case CallImport(_) => None.(calls := true)
    case CallIndirect => None.(calls := true)
    case GetLocal(name) => None.(localsRead := {name})
    case SetLocal(name) => None.(localsWritten := {name})
    case Load => None.(readsMemory := true)
    case Store => None.(writesMemory := true)
    case Return => None.(branches := true)
    case Host => None.(calls := true)
    case Unreachable => None.(branches := true)
    case Nop => None
    case Other => None
  }

  /** The summary a fresh analyzer holds after walking `e`: the children's
      effects, in order, and then the node's own. */
  function Analyze(e: Expression): Effects
    decreases e
  {
    AnalyzeAll(e.children).Join(Rule(e.kind))
  }

  /** The summary after walking the trees `es` one after the other. */
  function AnalyzeAll(es: seq<Expression>): Effects
    decreases es
  {
    if es == [] then None else AnalyzeAll(es[..|es| - 1]).Join(Analyze(es[|es| - 1]))
  }

  // ---------------------------------------------------------------------
  // Reference: the summary is determined by the set of node kinds present.

  /** Kinds that transfer control. */
  predicate IsControlFlow(k: Kind) {
    k.Block? || k.Loop? || k.If? || k.Break? || k.Switch? || k.Return? || k.Unreachable?
  }

  /** Kinds that call code this analysis does not look into. */
  predicate IsCall(k: Kind) {
    k.Call? || k.CallImport? || k.CallIndirect? || k.Host?
  }

  /** The summary of a fragment in which exactly the kinds `ks` occur. */
  function Summarize(ks: set<Kind>): Effects {
    Effects(
      exists k :: k in ks && IsControlFlow(k),
      exists k :: k in ks && IsCall(k),
      set k | k in ks && k.GetLocal? :: k.name,
      set k | k in ks && k.SetLocal? :: k.name,
      Load in ks,
      Store in ks)
  }

  /** Each visitor rule records exactly the effect of its own kind. */
  lemma RuleIsSummarize(k: Kind)
    ensures Rule(k) == Summarize({k})
  {
    var s := Summarize({k});
    if k.GetLocal? {
      assert k.name in s.localsRead;
      assert s.localsRead == {k.name};
    }
    if k.SetLocal? {
      assert k.name in s.localsWritten;
      assert s.localsWritten == {k.name};
    }
  }

  /** Summarizing a union is joining the summaries. */
  lemma SummarizeUnion(a: set<Kind>, b: set<Kind>)
    ensures Summarize(a + b) == Summarize(a).Join(Summarize(b))
  {
    var u, j := Summarize(a + b), Summarize(a).Join(Summarize(b));
    assert u.localsRead == j.localsRead;
    assert u.localsWritten == j.localsWritten;
  }

  /** The post-order walk yields the summary of the kinds that occur in the
      tree, independently of their order and nesting. */
  lemma {:induction false} AnalyzeIsSummarize(e: Expression)
    ensures Analyze(e) == Summarize(Kinds(e))
    decreases e
  {
    AnalyzeAllIsSummarize(e.children);
    RuleIsSummarize(e.kind);
    SummarizeUnion(KindsOf(e.children), {e.kind});
    assert KindsOf(e.children) + {e.kind} == Kinds(e);
  }

  lemma {:induction false} AnalyzeAllIsSummarize(es: seq<Expression>)
    ensures AnalyzeAll(es) == Summarize(KindsOf(es))
    decreases es
  {
    if es == [] {
      assert Summarize({}).localsRead == {};
      assert Summarize({}).localsWritten == {};
    } else {
      AnalyzeAllIsSummarize(es[..|es| - 1]);
      AnalyzeIsSummarize(es[|es| - 1]);
      SummarizeUnion(KindsOf(es[..|es| - 1]), Kinds(es[|es| - 1]));
    }
  }

  /** Summarizing more kinds records at least as much. */
  lemma SummarizeMonotonic(a: set<Kind>, b: set<Kind>)
    requires a <= b
    ensures Summarize(a).IsWithin(Summarize(b))
  {
  }

  /** Analyzing a tree records everything that analyzing any of its
      subtrees records. */
  lemma {:induction false} AnalyzeMonotonic(c: Expression, e: Expression)
    requires IsSubtree(c, e)
    ensures Analyze(c).IsWithin(Analyze(e))
  {
    SubtreeKinds(c, e);
    AnalyzeIsSummarize(c);
    AnalyzeIsSummarize(e);
    SummarizeMonotonic(Kinds(c), Kinds(e));
  }

  /** The analysis records a call exactly when some call-like node occurs,
      and then the fragment counts as accessing memory. */
  lemma {:induction false} CallsIffCallNode(e: Expression)
    ensures Analyze(e).calls <==> exists k :: k in Kinds(e) && IsCall(k)
    ensures (exists k :: k in Kinds(e) && IsCall(k)) ==> Analyze(e).AccessesMemory()
  {
    AnalyzeIsSummarize(e);
  }

  /** The analysis records control flow exactly when some control-flow node
      occurs. */
  lemma {:induction false} BranchesIffControlFlowNode(e: Expression)
    ensures Analyze(e).branches <==> exists k :: k in Kinds(e) && IsControlFlow(k)
  {
    AnalyzeIsSummarize(e);
  }

  /** A local is recorded as read (written) exactly when a GetLocal (SetLocal)
      of it occurs; so a tree without either accesses no local. */
  lemma {:induction false} LocalsIffLocalNodes(e: Expression, n: Name)
    ensures n in Analyze(e).localsRead <==> GetLocal(n) in Kinds(e)
    ensures n in Analyze(e).localsWritten <==> SetLocal(n) in Kinds(e)
    ensures Analyze(e).AccessesLocal() <==>
      exists k :: k in Kinds(e) && (k.GetLocal? || k.SetLocal?)
  {
    AnalyzeIsSummarize(e);
    var s := Summarize(Kinds(e));
    if GetLocal(n) in Kinds(e) {
      assert n in s.localsRead;
    }
    if SetLocal(n) in Kinds(e) {
      assert n in s.localsWritten;
    }
    if exists k :: k in Kinds(e) && (k.GetLocal? || k.SetLocal?) {
      var k :| k in Kinds(e) && (k.GetLocal? || k.SetLocal?);
      if k.GetLocal? {
        assert k.name in s.localsRead;
      } else {
        assert k.name in s.localsWritten;
      }
    }
  }

  /** Memory reads and writes are recorded exactly when a Load or a Store
      occurs. */
  lemma {:induction false} MemoryIffMemoryNodes(e: Expression)
    ensures Analyze(e).readsMemory <==> Load in Kinds(e)
    ensures Analyze(e).writesMemory <==> Store in Kinds(e)
  {
    AnalyzeIsSummarize(e);
  }

  /** Setting a local (to a value without effects) and then reading it is a
      hazard; two reads of it are not. */
  lemma LocalScenarios(x: Name)
    ensures Analyze(Node(SetLocal(x), [Node(Other, [])])).Invalidates(Analyze(Node(GetLocal(x), [])))
    ensures !Analyze(Node(GetLocal(x), [])).Invalidates(Analyze(Node(GetLocal(x), [])))
  {
    var value := Node(Other, []);
    assert AnalyzeAll([value]) == None by {
      assert [value][..0] == [];
    }
    assert Analyze(Node(SetLocal(x), [value])).localsWritten == {x};
    assert Analyze(Node(GetLocal(x), [])).localsRead == {x};
  }
}
