/**
  The part of the analyzer that drives the frames: it opens and closes them, binds names in the innermost one
  and analyzes symbols there (`analyze_symbol`). Each method takes one step of `CaptureTheory`.
 */
module Analyzer {

  import opened Wrappers
  import opened LocalFrames
  import opened CaptureTheory

  /** What a symbol was analyzed to. */
  datatype Reference =
    | LocalReference(binding: LocalBinding, needsBox: bool)
    | RecursionReference(fnFrame: LocalFrame, needsBox: bool)
    | InvalidCapture   // the local would have to be captured and its type cannot be copied
    | NotLocal         // left to the search for a var

  /** All binding objects that frames hold. */
  ghost function Bindings(s: Scopes): set<LocalBinding> {
    (set f, k, b | f in s && k in s[f].locals && b in s[f].locals[k] :: b)
    + (set f, k | f in s && k in s[f].captures :: s[f].captures[k])
  }

  lemma {:induction false} CrossedFnsAreDistinct(s: Scopes, f: LocalFrame, sym: Symbol)
    requires Linked(s) && f in s && Find(s, f, sym, true).Some?
    ensures var crossed := Find(s, f, sym, true).value.crossedFns;
            && (forall i :: 0 <= i < |crossed| ==> crossed[i].depth <= f.depth)
            && forall i, j :: 0 <= i < j < |crossed| ==> crossed[j].depth < crossed[i].depth
    decreases f.depth
  {
    if sym !in s[f].locals && sym !in s[f].captures {
      CrossedFnsAreDistinct(s, f.parent, sym);
    }
  }

  lemma {:induction false} NamedCrossingsAreDistinct(s: Scopes, f: LocalFrame, sym: Symbol)
    requires Linked(s) && f in s && FindNamed(s, f, sym).Some?
    ensures var crossed := FindNamed(s, f, sym).value.crossedFns;
            && (forall i :: 0 <= i < |crossed| ==> crossed[i].depth <= f.depth)
            && forall i, j :: 0 <= i < j < |crossed| ==> crossed[j].depth < crossed[i].depth
    decreases f.depth
  {
    if !f.IsFnNamed(sym) {
      NamedCrossingsAreDistinct(s, f.parent, sym);
    }
  }

  lemma CrossedFnsAreFrames(s: Scopes, f: LocalFrame, sym: Symbol)
    requires Linked(s) && f in s && Find(s, f, sym, true).Some?
    ensures forall c :: c in Find(s, f, sym, true).value.crossedFns ==> c in s
  {
    forall c | c in Find(s, f, sym, true).value.crossedFns ensures c in s {
      CrossedFnsLackTheSymbol(s, f, sym, c);
    }
  }

  lemma CrossedByNameAreFrames(s: Scopes, f: LocalFrame, sym: Symbol)
    requires Linked(s) && f in s && FindNamed(s, f, sym).Some?
    ensures forall c :: c in FindNamed(s, f, sym).value.crossedFns ==> c in s
  {
    forall c | c in FindNamed(s, f, sym).value.crossedFns ensures c in s {
      NamedCrossings(s, f, sym, c);
    }
  }

  lemma {:induction false} FoundBindingIsHeld(s: Scopes, f: LocalFrame, sym: Symbol)
    requires Linked(s) && f in s && Find(s, f, sym, true).Some?
    ensures Find(s, f, sym, true).value.target in Bindings(s)
    decreases f.depth
  {
    if sym in s[f].locals {
      var bs := s[f].locals[sym];
      assert bs[|bs| - 1] in bs;
    } else if sym !in s[f].captures {
      FoundBindingIsHeld(s, f.parent, sym);
    }
  }

  lemma {:induction false} FailedLookupMeansNoCapture(s: Scopes, f: LocalFrame, sym: Symbol, c: LocalFrame)
    requires Linked(s) && f in s && Find(s, f, sym, true).None? && Encloses(c, f)
    ensures c in s && sym !in s[c].captures
    decreases f.depth
  {
    if c != f {
      FailedLookupMeansNoCapture(s, f.parent, sym, c);
    }
  }

  lemma NothingToCapture(w: World, sym: Symbol)
    requires Inv(w) && Find(w.scopes, w.current, sym, true).None? && FindNamed(w.scopes, w.current, sym).None?
    ensures Enabled(w, Resolve(sym, map[], null)) && Next(w, Resolve(sym, map[], null)) == w
  {}

  class Processor {
    var current: LocalFrame
    ghost var frames: set<LocalFrame>

    ghost function State(): World
      reads this, frames
    {
      World(View(frames), current)
    }

    ghost predicate Valid()
      reads this, frames
    {
      Inv(State())
    }

    constructor ()
      ensures Valid() && Initial(State())
      ensures fresh(frames) && current.frameType.Root?
    {
      var root := new LocalFrame(Root, null, "", None);
      current := root;
      frames := {root};
    }

    method OpenFrame(frameType: FrameType, fnName: string, fnExpr: Option<nat>)
      requires Valid()
      modifies this
      ensures Valid() && fresh(frames - old(frames))
      ensures Enabled(old(State()), Step.OpenFrame(current))
      ensures State() == Next(old(State()), Step.OpenFrame(current))
      ensures current.frameType == frameType && current.fnName == fnName && current.fnExpr == fnExpr
    {
      ghost var w := State();
      var frame := new LocalFrame(frameType, current, fnName, fnExpr);
      current := frame;
      frames := frames + {frame};
      assert State() == Next(w, Step.OpenFrame(frame));
      StepKeepsInv(w, Step.OpenFrame(frame));
    }

    method Bind(sym: Symbol, nativeName: string, valueExpr: Option<nat>, needsBox: bool, isLoopVariable: bool,
                cppType: CppType)
      returns (b: LocalBinding)
      requires Valid()
      modifies current`locals
      ensures Valid()
      ensures fresh(b) && b.name == sym && b.nativeName == nativeName && b.valueExpr == valueExpr && b.cppType == cppType
      ensures Enabled(old(State()), Step.Bind(b))
      ensures State() == Next(old(State()), Step.Bind(b))
      ensures forall c :: Find(View(frames), current, sym, c) == Some(Found(b, []))
    {
      ghost var w := State();
      b := new LocalBinding.Local(sym, nativeName, current, valueExpr, needsBox, isLoopVariable, cppType);
      var earlier := if sym in current.locals then current.locals[sym] else [];
      current.locals := current.locals[sym := earlier + [b]];
      assert State() == Next(w, Step.Bind(b));
      StepKeepsInv(w, Step.Bind(b));
      BindHidesEarlier(w, b, true);
      BindHidesEarlier(w, b, false);
    }

    method CloseFrame()
      requires Valid() && current.parent != null
      modifies this`current
      ensures Valid()
      ensures State() == Next(old(State()), Step.CloseFrame)
    {
      ghost var w := State();
      current := current.parent;
      assert State() == Next(w, Step.CloseFrame);
      StepKeepsInv(w, Step.CloseFrame);
    }

    /** Captures `target` in the crossed fns and reports the captures made. */
    method Register(target: FindResult, ghost sym: Symbol) returns (ghost entered: map<LocalFrame, LocalBinding>)
      requires Valid() && target.target.name == sym
      requires forall c :: c in target.crossedFns ==> c in frames && sym !in c.captures
      requires forall i, j :: 0 <= i < j < |target.crossedFns| ==> target.crossedFns[j].depth < target.crossedFns[i].depth
      modifies (set c | c in target.crossedFns)`captures
      ensures entered.Keys == set c | c in target.crossedFns
      ensures forall c :: c in entered ==> fresh(entered[c]) && IsCaptureOf(entered[c], target.target)
      ensures forall c :: c in entered ==> entered[c].MarkedAsCapture()
      ensures View(frames) == WithCaptures(old(View(frames)), sym, entered)
    {
      assert (set c, b | c in target.crossedFns && b in c.Entry(sym) :: b) == {};
      LocalFrame.RegisterCaptures(target);
      entered := map c | c in target.crossedFns :: c.captures[sym];
    }

    method RegisterFound(sym: Symbol, found: FindResult) returns (ghost step: Step)
      requires Valid() && Find(View(frames), current, sym, true) == Some(found)
      modifies (set c | c in found.crossedFns)`captures
      ensures Valid() && step.Resolve? && step.sym == sym
      ensures Enabled(old(State()), step) && State() == Next(old(State()), step)
      ensures forall c :: c in step.entered ==> fresh(step.entered[c]) && step.entered[c].MarkedAsCapture()
    {
      ghost var w := State();
      forall c | c in found.crossedFns ensures c in frames && sym !in c.captures {
        CrossedFnsLackTheSymbol(w.scopes, current, sym, c);
      }
      CrossedFnsAreDistinct(w.scopes, current, sym);
      FoundBindingHasName(w, current, sym);
      ghost var entered := Register(found, sym);
      step := Resolve(sym, entered, null);
      StepKeepsInv(w, step);
    }

    method RegisterNamed(sym: Symbol, named: RecursionResult) returns (ghost step: Step)
      requires Valid() && Find(View(frames), current, sym, true).None?
      requires FindNamed(View(frames), current, sym) == Some(named)
      modifies (set c | c in named.crossedFns)`captures
      ensures Valid() && step.Resolve? && step.sym == sym
      ensures Enabled(old(State()), step) && State() == Next(old(State()), step)
    {
      ghost var w := State();
      NamedEncloses(w.scopes, current, sym);
      forall c | c in named.crossedFns ensures c in frames && sym !in c.captures {
        NamedCrossings(w.scopes, current, sym, c);
        FailedLookupMeansNoCapture(w.scopes, current, sym, c);
      }
      NamedCrossingsAreDistinct(w.scopes, current, sym);
      var b := new LocalBinding.Recursion(named.target, current);
      ghost var entered := Register(Found(b, named.crossedFns), sym);
      step := Resolve(sym, entered, b);
      StepKeepsInv(w, step);
    }

    /** The symbol is a local or a capture: capture it further in if need be, and note how it is used. */
    method AnalyzeFound(sym: Symbol, found: FindResult, needsBox: bool) returns (r: Reference, ghost step: Step)
      requires Valid() && Find(View(frames), current, sym, true) == Some(found)
      modifies frames`captures, found.target
      ensures Valid() && r.LocalReference? && step.Resolve? && step.sym == sym
      ensures Enabled(old(State()), step) && State() == Next(old(State()), step)
      ensures Find(View(frames), current, sym, true) == Some(Found(r.binding, []))
      ensures if found.crossedFns == [] then r.binding == found.target else r.binding.origin == found.target
      ensures Follow(r.binding) == Follow(found.target)
      ensures r.needsBox == (needsBox || old(found.target.needsBox) || found.crossedFns != [])
      ensures UsesNoted(r, found, old(found.target.hasBoxedUsage), old(found.target.hasUnboxedUsage))
    {
      CrossedFnsAreFrames(View(frames), current, sym);
      var boxed := needsBox || found.target.needsBox || found.crossedFns != [];
      var binding;
      binding, step := Reach(sym, found);
      NoteUses(found, binding, boxed);
      r := LocalReference(binding, boxed);
    }

    /** Being captured counts as a boxed use of the binding that was captured. */
    method NoteUses(found: FindResult, binding: LocalBinding, boxed: bool)
      requires if found.crossedFns == [] then binding == found.target else binding != found.target && boxed
      modifies found.target`hasBoxedUsage, found.target`hasUnboxedUsage
      modifies binding`hasBoxedUsage, binding`hasUnboxedUsage
      ensures found.target.hasBoxedUsage == (old(found.target.hasBoxedUsage) || boxed)
      ensures found.target.hasUnboxedUsage == (old(found.target.hasUnboxedUsage) || !boxed)
      ensures binding.hasBoxedUsage == (old(binding.hasBoxedUsage) || boxed)
      ensures binding.hasUnboxedUsage == (old(binding.hasUnboxedUsage) || !boxed)
      ensures State() == old(State())
    {
      if found.crossedFns != [] {
        found.target.NoteUsage(true);
      }
      binding.NoteUsage(boxed);
    }

    /**
      Gets at the binding to use in the current frame. If the search crossed fns the symbol is captured in them
      and looked up again, which finds the innermost capture.
     */
    method Reach(sym: Symbol, found: FindResult) returns (binding: LocalBinding, ghost step: Step)
      requires Valid() && Find(View(frames), current, sym, true) == Some(found)
      modifies (set c | c in found.crossedFns)`captures
      ensures Valid() && step.Resolve? && step.sym == sym
      ensures Enabled(old(State()), step) && State() == Next(old(State()), step)
      ensures Find(View(frames), current, sym, true) == Some(Found(binding, []))
      ensures if found.crossedFns == [] then binding == found.target else fresh(binding) && binding.origin == found.target
      ensures found.crossedFns != [] ==> binding.MarkedAsCapture()
      ensures Follow(binding) == Follow(found.target)
    {
      ghost var w := State();
      step := RegisterFound(sym, found);
      RepeatedLookupCrossesNothing(w, sym, step.entered, step.recursion);
      binding := found.target;
      if found.crossedFns != [] {
        var again := current.FindLocalOrCapture(sym, frames);
        binding := again.value.target;
        assert found.crossedFns[0] in step.entered;
      }
    }

    /**
      Analyzes a symbol in the current frame. `copyable` says whether a value of the local's type can be copied
      into a closure. The step taken is reported in `step`; nothing changes when the capture is refused.
     */
    method AnalyzeSymbol(sym: Symbol, needsBox: bool, copyable: bool) returns (r: Reference, ghost step: Step)
      requires Valid()
      modifies frames`captures, frames`isNamedRecursive, Bindings(View(frames))
      ensures Valid()
      ensures r.InvalidCapture? <==>
                !copyable && var found := Find(old(View(frames)), current, sym, true);
                             found.Some? && found.value.crossedFns != []
      ensures r.InvalidCapture? ==> State() == old(State())
      ensures !r.InvalidCapture? ==>
                && step.Resolve? && step.sym == sym
                && Enabled(old(State()), step) && State() == Next(old(State()), step)
      ensures r.LocalReference? ==> Find(View(frames), current, sym, true) == Some(Found(r.binding, []))
      ensures !r.InvalidCapture? ==> ReferenceMeaning(r) == AnalyzedMeaning(old(View(frames)), current, sym)
      ensures r.LocalReference? ==>
                var found := Find(old(View(frames)), current, sym, true);
                && found.Some?
                && r.needsBox == (needsBox || old(found.value.target.needsBox) || found.value.crossedFns != [])
                && UsesNoted(r, found.value,
                             old(found.value.target.hasBoxedUsage), old(found.value.target.hasUnboxedUsage))
      ensures r.RecursionReference? ==> Find(old(View(frames)), current, sym, true).None? && r.needsBox == needsBox
      ensures forall f :: f in frames ==>
                f.isNamedRecursive == (old(f.isNamedRecursive) || (r.RecursionReference? && r.fnFrame == f))
    {
      ghost var w := State();
      var found := current.FindLocalOrCapture(sym, frames);
      if found.Some? {
        if found.value.crossedFns != [] && !copyable {
          step := Step.CloseFrame;
          return InvalidCapture, step;
        }
        FoundBindingIsHeld(w.scopes, current, sym);
        r, step := AnalyzeFound(sym, found.value, needsBox);
        return;
      }
      r, step := AnalyzeUnfound(sym, needsBox);
    }

    /** The symbol is no local: it may be an enclosing fn's name, which makes that fn named-recursive. */
    method AnalyzeUnfound(sym: Symbol, needsBox: bool) returns (r: Reference, ghost step: Step)
      requires Valid() && Find(View(frames), current, sym, true).None?
      modifies frames`captures, frames`isNamedRecursive
      ensures Valid() && step.Resolve? && step.sym == sym
      ensures Enabled(old(State()), step) && State() == Next(old(State()), step)
      ensures var named := FindNamed(old(View(frames)), current, sym);
              r == if named.Some? then RecursionReference(named.value.target, needsBox) else NotLocal
      ensures forall f :: f in frames ==>
                f.isNamedRecursive == (old(f.isNamedRecursive) || (r.RecursionReference? && r.fnFrame == f))
    {
      var named := current.FindNamedRecursion(sym, frames);
      if named.Some? {
        CrossedByNameAreFrames(View(frames), current, sym);
        NamedEncloses(View(frames), current, sym);
        step := AnalyzeRecursion(sym, named.value);
        return RecursionReference(named.value.target, needsBox), step;
      }
      NothingToCapture(State(), sym);
      return NotLocal, Resolve(sym, map[], null);
    }

    method AnalyzeRecursion(sym: Symbol, named: RecursionResult) returns (ghost step: Step)
      requires Valid() && Find(View(frames), current, sym, true).None?
      requires FindNamed(View(frames), current, sym) == Some(named)
      modifies (set c | c in named.crossedFns)`captures, named.target`isNamedRecursive
      ensures Valid() && step.Resolve? && step.sym == sym
      ensures Enabled(old(State()), step) && State() == Next(old(State()), step)
      ensures named.target in frames && named.target.isNamedRecursive
    {
      NamedEncloses(View(frames), current, sym);
      step := RegisterNamed(sym, named);
      NoteRecursion(named.target);
    }

    method NoteRecursion(f: LocalFrame)
      modifies f`isNamedRecursive
      ensures f.isNamedRecursive && State() == old(State())
    {
      f.isNamedRecursive := true;
      assert View(frames) == old(View(frames));
    }
  }

  lemma MarkedMeans(c: LocalBinding)
    ensures c.MarkedAsCapture() <==>
            c.isCapture && c.needsBox && c.hasBoxedUsage && !c.hasUnboxedUsage && !c.cppType.Reference?
  {}

  /**
    How a reference to a local leaves the usage flags. Without a crossed fn it is a use of the binding found, boxed or
    not; otherwise it uses a new capture, boxed only, and that counts as a boxed use of the binding captured.
   */
  ghost predicate UsesNoted(r: Reference, found: FindResult, wasBoxed: bool, wasUnboxed: bool)
    requires r.LocalReference?
    reads found.target, r.binding
  {
    && found.target.hasBoxedUsage == (wasBoxed || r.needsBox)
    && found.target.hasUnboxedUsage == (wasUnboxed || !r.needsBox)
    && if found.crossedFns == [] then r.binding == found.target
       else r.binding.origin == found.target && r.binding.MarkedAsCapture()
  }

  ghost function ReferenceMeaning(r: Reference): Meaning
    requires !r.InvalidCapture?
  {
    match r
    case LocalReference(b, _) =>
      var e := Follow(b);
      if e.recursionOf != null then ToFn(e.recursionOf) else ToLocal(e)
    case RecursionReference(f, _) => ToFn(f)
    case NotLocal => Unresolved
  }

  /**
    Steps that are read non-lexically: inside `(fn f [] (fn g [] (f) (fn f [] (f))))`. Once `g` has captured the
    outer `f`, the body of the inner `f` reaches that capture before it can reach the inner `f` itself. Without
    the first `(f)` the inner one would refer to itself.
   */
  method ShadowedRecursion() returns (p: Processor, ghost outer: LocalFrame)
    ensures p.Valid() && outer in p.frames && outer != p.current
    ensures LexicalMeaning(View(p.frames), p.current, "f") == ToFn(p.current)
    ensures AnalyzedMeaning(View(p.frames), p.current, "f") == ToFn(outer)
  {
    p, outer := NestedFns();
    ReferToOuter(p, outer);
    ghost var g := p.current;
    p.OpenFrame(Fn, "f", None);
    InnerFnIsShadowed(View(p.frames), outer, g, p.current, g.captures["f"]);
  }

  /**
    Steps in which a fn's own name is hidden by a local further out: inside `(let [f 1] (fn f [] f))`. The search
    for locals passes the fn before any fn's name is considered.
   */
  method ShadowedByOuterLocal() returns (p: Processor, ghost b: LocalBinding)
    ensures p.Valid() && p.current.IsFnNamed("f")
    ensures LexicalMeaning(View(p.frames), p.current, "f") == ToFn(p.current)
    ensures AnalyzedMeaning(View(p.frames), p.current, "f") == ToLocal(b) && b.valueExpr == Some(1)
  {
    p, b := LetF();
    ghost var let_ := p.current;
    p.OpenFrame(Fn, "f", None);
    OuterLocalHidesFn(View(p.frames), let_, p.current, b);
  }

  method LetF() returns (p: Processor, ghost b: LocalBinding)
    ensures fresh(p) && fresh(p.frames) && p.Valid()
    ensures View(p.frames)[p.current].locals == map["f" := [b]]
    ensures b.origin == null && b.recursionOf == null && b.valueExpr == Some(1)
  {
    p := new Processor();
    p.OpenFrame(Let, "", None);
    assert View(p.frames)[p.current] == Contents(map[], map[]);
    b := p.Bind("f", "f", Some(1), false, false, UntypedObject);
    assert [] + [b] == [b];
  }

  lemma OuterLocalHidesFn(s: Scopes, outer: LocalFrame, inner: LocalFrame, b: LocalBinding)
    requires Linked(s) && outer in s && inner in s && inner.parent == outer && inner.IsFnNamed("f")
    requires s[outer].locals == map["f" := [b]] && s[inner] == Contents(map[], map[])
    requires b.origin == null && b.recursionOf == null
    ensures LexicalMeaning(s, inner, "f") == ToFn(inner)
    ensures AnalyzedMeaning(s, inner, "f") == ToLocal(b)
  {
    assert Find(s, outer, "f", true) == Some(Found(b, []));
  }

  /** The first `(f)`, inside `g`. */
  method ReferToOuter(p: Processor, ghost outer: LocalFrame)
    requires p.Valid() && Nested(View(p.frames), outer, p.current)
    requires forall f :: f in p.frames ==> View(p.frames)[f] == Contents(map[], map[])
    modifies p.frames`captures, p.frames`isNamedRecursive
    ensures p.Valid() && Nested(View(p.frames), outer, p.current)
    ensures "f" in p.current.captures && p.current.captures == map["f" := p.current.captures["f"]]
    ensures Follow(p.current.captures["f"]).recursionOf == outer
  {
    OuterFnIsFoundByName(View(p.frames), outer, p.current);
    EmptyFramesHoldNoBindings(View(p.frames));
    var r;
    ghost var step;
    r, step := p.AnalyzeSymbol("f", true, true);
    assert p.current in [p.current];
  }

  method NestedFns() returns (p: Processor, ghost outer: LocalFrame)
    ensures fresh(p) && fresh(p.frames) && p.Valid()
    ensures Nested(View(p.frames), outer, p.current)
    ensures forall f :: f in p.frames ==> View(p.frames)[f] == Contents(map[], map[])
  {
    p := new Processor();
    ghost var root := p.current;
    p.OpenFrame(Fn, "f", None);
    outer := p.current;
    assert View(p.frames) == map[root := Contents(map[], map[]), outer := Contents(map[], map[])];
    p.OpenFrame(Fn, "g", None);
  }

  lemma EmptyFramesHoldNoBindings(s: Scopes)
    requires forall f :: f in s ==> s[f] == Contents(map[], map[])
    ensures Bindings(s) == {}
  {}

  /** Frames `root`, `outer` and `g`, each in the one before, with no locals. */
  ghost predicate Nested(s: Scopes, outer: LocalFrame, g: LocalFrame) {
    && Linked(s) && outer in s && g in s
    && g.parent == outer && outer.parent != null && outer.parent.parent == null
    && outer.IsFnNamed("f") && g.IsFnNamed("g") && !outer.parent.frameType.Fn?
    && s[outer.parent] == s[outer] == Contents(map[], map[]) && s[g].locals == map[]
  }

  lemma OuterFnIsFoundByName(s: Scopes, outer: LocalFrame, g: LocalFrame)
    requires Nested(s, outer, g) && s[g].captures == map[]
    ensures Find(s, g, "f", true) == None
    ensures FindNamed(s, g, "f") == Some(Found(outer, [g]))
  {
    assert Find(s, outer.parent, "f", true) == None;
    assert Find(s, outer, "f", true) == None;
    OutwardEnds([g], FindNamed(s, outer, "f"));
  }

  lemma InnerFnIsShadowed(s: Scopes, outer: LocalFrame, g: LocalFrame, inner: LocalFrame, c: LocalBinding)
    requires Nested(s, outer, g) && s[g].captures == map["f" := c] && Follow(c).recursionOf == outer
    requires inner in s && inner.parent == g && inner.IsFnNamed("f") && s[inner] == Contents(map[], map[])
    ensures LexicalMeaning(s, inner, "f") == ToFn(inner)
    ensures AnalyzedMeaning(s, inner, "f") == ToFn(outer)
  {
    assert Find(s, outer.parent, "f", false) == None;
    assert Find(s, outer, "f", false) == None;
    assert Find(s, g, "f", false) == None;
    assert Find(s, g, "f", true) == Some(Found(c, []));
  }
}
