/**
  Lexical frames and their capture maps (`analyze/local_frame`).

  Frames and bindings are objects, because the analyzer changes them in place and tells them apart by address.
  A `local_capture` is a copied binding together with a reference to the binding it was copied from; here both
  are one object whose `origin` is that reference, and a plain local is a binding whose `origin` is null.
 */
module LocalFrames {

  import opened Wrappers

  type Symbol = string

  datatype FrameType = Root | Fn | Let | Letfn | Try | Catch | Finally

  /** Native types: only being a reference matters here. */
  datatype CppType = UntypedObject | Value(id: nat) | Reference(id: nat) {
    function NonReference(): CppType {
      if Reference? then Value(id) else this
    }
  }

  class LocalBinding {
    const name: Symbol
    const nativeName: string
    const originatingFrame: LocalFrame
    const isLoopVariable: bool
    var valueExpr: Option<nat>
    var needsBox: bool
    var hasBoxedUsage: bool
    var hasUnboxedUsage: bool
    var isCapture: bool
    var cppType: CppType

    /** The `originating_binding` of the capture this binding belongs to, or null for a plain local. */
    const origin: LocalBinding?
    /** The fn frame a named-recursion binding stands for, or null for a real local. */
    ghost const recursionOf: LocalFrame?
    /** How many captures lie between this binding and the one it was first copied from. */
    ghost const age: nat

    constructor Local(name: Symbol, nativeName: string, frame: LocalFrame, valueExpr: Option<nat>,
                      needsBox: bool, isLoopVariable: bool, cppType: CppType)
      ensures this.name == name && this.nativeName == nativeName && originatingFrame == frame
      ensures this.valueExpr == valueExpr && this.needsBox == needsBox && this.cppType == cppType
      ensures this.isLoopVariable == isLoopVariable
      ensures !hasBoxedUsage && !hasUnboxedUsage && !isCapture
      ensures origin == null && recursionOf == null && age == 0
    {
      this.name, this.nativeName, this.originatingFrame := name, nativeName, frame;
      this.valueExpr, this.needsBox, this.isLoopVariable, this.cppType := valueExpr, needsBox, isLoopVariable, cppType;
      hasBoxedUsage, hasUnboxedUsage, isCapture := false, false, false;
      origin, recursionOf, age := null, null, 0;
    }

    /** The binding made up for a reference to an enclosing fn by name. */
    constructor Recursion(fnFrame: LocalFrame, frame: LocalFrame)
      ensures name == nativeName == fnFrame.fnName && originatingFrame == frame && !isLoopVariable
      ensures valueExpr == fnFrame.fnExpr && needsBox && cppType == UntypedObject
      ensures !hasBoxedUsage && !hasUnboxedUsage && !isCapture
      ensures origin == null && recursionOf == fnFrame && age == 0
    {
      name, nativeName, originatingFrame := fnFrame.fnName, fnFrame.fnName, frame;
      valueExpr, needsBox, isLoopVariable, cppType := fnFrame.fnExpr, true, false, UntypedObject;
      hasBoxedUsage, hasUnboxedUsage, isCapture := false, false, false;
      origin, recursionOf, age := null, fnFrame, 0;
    }

    /** The copy that goes into a capture map. */
    constructor CopyOf(b: LocalBinding)
      ensures name == b.name && nativeName == b.nativeName && originatingFrame == b.originatingFrame
      ensures isLoopVariable == b.isLoopVariable && valueExpr == b.valueExpr && cppType == b.cppType
      ensures needsBox == b.needsBox && isCapture == b.isCapture
      ensures hasBoxedUsage == b.hasBoxedUsage && hasUnboxedUsage == b.hasUnboxedUsage
      ensures origin == b && recursionOf == null && age == b.age + 1
    {
      name, nativeName, originatingFrame := b.name, b.nativeName, b.originatingFrame;
      valueExpr, needsBox, isLoopVariable, cppType := b.valueExpr, b.needsBox, b.isLoopVariable, b.cppType;
      hasBoxedUsage, hasUnboxedUsage, isCapture := b.hasBoxedUsage, b.hasUnboxedUsage, b.isCapture;
      origin, recursionOf, age := b, null, b.age + 1;
    }

    /** Once captured, a binding needs a box; to start with it is taken to be used boxed only. Natives are copied. */
    method MarkCaptured()
      modifies this
      ensures MarkedAsCapture() && cppType == old(cppType).NonReference() && valueExpr == old(valueExpr)
    {
      isCapture := true;
      needsBox := true;
      hasBoxedUsage := true;
      hasUnboxedUsage := false;
      cppType := cppType.NonReference();
    }

    method NoteUsage(boxed: bool)
      modifies this`hasBoxedUsage, this`hasUnboxedUsage
      ensures hasBoxedUsage == (old(hasBoxedUsage) || boxed)
      ensures hasUnboxedUsage == (old(hasUnboxedUsage) || !boxed)
    {
      if boxed {
        hasBoxedUsage := true;
      } else {
        hasUnboxedUsage := true;
      }
    }

    /** What every captured binding looks like: boxed, and so far only used boxed. */
    predicate MarkedAsCapture()
      reads this
    {
      isCapture && needsBox && hasBoxedUsage && !hasUnboxedUsage && cppType == cppType.NonReference()
    }
  }

  /** Follows `originating_binding` until it reaches a binding that is not part of a capture. */
  ghost function Follow(b: LocalBinding): LocalBinding
    decreases b.age
  {
    if b.origin == null || b.origin.age >= b.age then b else Follow(b.origin)
  }

  /** What a search found, and the fn frames it left on the way out, innermost first. */
  datatype Found<+T> = Found(target: T, crossedFns: seq<LocalFrame>)

  type FindResult = Found<LocalBinding>
  type RecursionResult = Found<LocalFrame>

  // ---------------------------------------------------------------------------------------------
  // The contents of all frames as a value, and lookup over it
  // ---------------------------------------------------------------------------------------------

  datatype Contents = Contents(locals: map<Symbol, seq<LocalBinding>>, captures: map<Symbol, LocalBinding>)

  type Scopes = map<LocalFrame, Contents>

  ghost function View(frames: set<LocalFrame>): Scopes
    reads frames
  {
    map f | f in frames :: Contents(f.locals, f.captures)
  }

  /** Parents are known and lie strictly further out; a name that has locals has at least one. */
  ghost predicate Linked(s: Scopes) {
    && (forall f :: f in s && f.parent != null ==> f.parent in s && f.parent.depth < f.depth)
    && (forall f, k :: f in s && k in s[f].locals ==> s[f].locals[k] != [])
  }

  /** Lexical lookup. With `allowCaptures` the nearest capture also ends the search. */
  ghost function Find(s: Scopes, f: LocalFrame, sym: Symbol, allowCaptures: bool): Option<FindResult>
    requires Linked(s) && f in s
    decreases f.depth
  {
    if sym in s[f].locals then
      Some(Found(Last(s[f].locals[sym]), []))
    else if allowCaptures && sym in s[f].captures then
      Some(Found(s[f].captures[sym], []))
    else if f.parent == null then
      None
    else
      Outward(Crossing(f), Find(s, f.parent, sym, allowCaptures))
  }

  /** Puts the fns crossed further in, in front of those crossed further out. */
  ghost function Outward<T>(crossed: seq<LocalFrame>, r: Option<Found<T>>): Option<Found<T>> {
    match r
    case None => None
    case Some(found) => Some(Found(found.target, crossed + found.crossedFns))
  }

  ghost function Crossing(f: LocalFrame): seq<LocalFrame> {
    if f.frameType.Fn? then [f] else []
  }

  function Last<T>(s: seq<T>): T
    requires s != []
  {
    s[|s| - 1]
  }

  /** The innermost fn frame at or around `f` that has the given name. */
  ghost function FindNamed(s: Scopes, f: LocalFrame, sym: Symbol): Option<RecursionResult>
    requires Linked(s) && f in s
    decreases f.depth
  {
    if f.IsFnNamed(sym) then
      Some(Found(f, []))
    else if f.parent == null then
      None
    else
      Outward(Crossing(f), FindNamed(s, f.parent, sym))
  }

  class LocalFrame {
    const frameType: FrameType
    const parent: LocalFrame?
    /** `fn_ctx->name` and `fn_ctx->fn`, meaningful for fn frames only. */
    const fnName: string
    const fnExpr: Option<nat>
    ghost const depth: nat
    var locals: map<Symbol, seq<LocalBinding>>
    var captures: map<Symbol, LocalBinding>
    /** `fn_ctx->is_named_recursive` */
    var isNamedRecursive: bool

    constructor (frameType: FrameType, parent: LocalFrame?, fnName: string, fnExpr: Option<nat>)
      ensures this.frameType == frameType && this.parent == parent && this.fnName == fnName && this.fnExpr == fnExpr
      ensures locals == map[] && captures == map[] && !isNamedRecursive
      ensures depth == if parent == null then 0 else parent.depth + 1
    {
      this.frameType, this.parent, this.fnName, this.fnExpr := frameType, parent, fnName, fnExpr;
      locals, captures, isNamedRecursive := map[], map[], false;
      depth := if parent == null then 0 else parent.depth + 1;
    }

    predicate IsFnNamed(sym: Symbol) {
      frameType.Fn? && fnName == sym
    }

    static method FindLocalImpl(start: LocalFrame, sym: Symbol, allowCaptures: bool, ghost frames: set<LocalFrame>)
      returns (r: Option<FindResult>)
      requires Linked(View(frames)) && start in frames
      ensures r == Find(View(frames), start, sym, allowCaptures)
    {
      var crossedFns: seq<LocalFrame> := [];
      var it := start;
      ghost var s := View(frames);
      OutwardEnds([], Find(s, start, sym, allowCaptures));
      while true
        invariant it in frames
        invariant Find(s, start, sym, allowCaptures) == Outward(crossedFns, Find(s, it, sym, allowCaptures))
        decreases it.depth
      {
        OutwardEnds(crossedFns, Find(s, it, sym, allowCaptures));
        if sym in it.locals {
          return Some(Found(Last(it.locals[sym]), crossedFns));
        }
        if allowCaptures {
          if sym in it.captures {
            return Some(Found(it.captures[sym], crossedFns));
          }
        }
        if it.parent != null {
          OutwardTwice(crossedFns, it, Find(s, it.parent, sym, allowCaptures));
          assert !it.frameType.Fn? ==> crossedFns + Crossing(it) == crossedFns;
          if it.frameType.Fn? {
            crossedFns := crossedFns + [it];
          }
          it := it.parent;
        } else {
          return None;
        }
      }
    }

    method FindLocalOrCapture(sym: Symbol, ghost frames: set<LocalFrame>) returns (r: Option<FindResult>)
      requires Linked(View(frames)) && this in frames
      ensures r == Find(View(frames), this, sym, true)
    {
      r := FindLocalImpl(this, sym, true, frames);
    }

    method FindNamedRecursion(sym: Symbol, ghost frames: set<LocalFrame>) returns (r: Option<RecursionResult>)
      requires Linked(View(frames)) && this in frames
      ensures r == FindNamed(View(frames), this, sym)
    {
      var crossedFns: seq<LocalFrame> := [];
      var it := this;
      ghost var s := View(frames);
      OutwardEnds([], FindNamed(s, this, sym));
      while true
        invariant it in frames
        invariant FindNamed(s, this, sym) == Outward(crossedFns, FindNamed(s, it, sym))
        decreases it.depth
      {
        OutwardEnds(crossedFns, FindNamed(s, it, sym));
        if it.frameType.Fn? && it.fnName == sym {
          return Some(Found(it, crossedFns));
        }
        if it.parent != null {
          OutwardTwice(crossedFns, it, FindNamed(s, it.parent, sym));
          assert !it.frameType.Fn? ==> crossedFns + Crossing(it) == crossedFns;
          if it.frameType.Fn? {
            crossedFns := crossedFns + [it];
          }
          it := it.parent;
        } else {
          return None;
        }
      }
    }

    /** `captures.emplace`: a copy of the binding, unless the name is already there. */
    method Emplace(binding: LocalBinding)
      modifies this`captures
      ensures binding.name in captures
      ensures old(binding.name in captures) ==> captures == old(captures)
      ensures old(binding.name !in captures) ==>
                var c := captures[binding.name];
                && fresh(c) && Entered(this, binding, old(captures))
                && c.nativeName == binding.nativeName && c.originatingFrame == binding.originatingFrame
                && c.isLoopVariable == binding.isLoopVariable && c.valueExpr == binding.valueExpr
                && c.cppType == binding.cppType
    {
      if binding.name !in captures {
        var copy := new LocalBinding.CopyOf(binding);
        captures := captures[binding.name := copy];
      }
    }

    /** The entry of the name in the capture map, if there is one. */
    ghost function Entry(name: Symbol): set<LocalBinding>
      reads this
    {
      if name in captures then {captures[name]} else {}
    }

    /** One turn of the loop below: an entry, new unless there was one, marked as captured. */
    method Capture(binding: LocalBinding) returns (c: LocalBinding)
      modifies this`captures, Entry(binding.name)
      ensures binding.name in captures && c == captures[binding.name] && c.MarkedAsCapture()
      ensures old(binding.name in captures) ==>
                captures == old(captures) && c.cppType == old(captures[binding.name].cppType).NonReference()
      ensures old(binding.name !in captures) ==>
                && fresh(c) && Entered(this, binding, old(captures))
                && c.nativeName == binding.nativeName && c.originatingFrame == binding.originatingFrame
                && c.isLoopVariable == binding.isLoopVariable && c.valueExpr == binding.valueExpr
                && c.cppType == binding.cppType.NonReference()
    {
      Emplace(binding);
      c := captures[binding.name];
      c.MarkCaptured();
    }

    /** Captures the found binding in every fn that was crossed. A capture of the name that is already there is kept, but marked again. */
    static method RegisterCaptures(result: FindResult)
      modifies (set c | c in result.crossedFns)`captures
      modifies set c, b | c in result.crossedFns && b in c.Entry(result.target.name) :: b
      ensures forall c :: c in result.crossedFns ==> Registered(c, result.target, old(c.captures))
      ensures forall c :: c in result.crossedFns && old(result.target.name !in c.captures) ==>
                fresh(c.Entry(result.target.name))
    {
      var name, crossed := result.target.name, result.crossedFns;
      for i := 0 to |crossed|
        invariant forall c :: c in crossed && old(name in c.captures) ==> c.captures == old(c.captures)
        invariant forall c :: c in crossed && old(name !in c.captures) ==>
                    c.captures == old(c.captures)
                    || (Entered(c, result.target, old(c.captures)) && fresh(c.captures[name]))
        invariant forall j :: 0 <= j < i ==> name in crossed[j].captures && crossed[j].captures[name].MarkedAsCapture()
      {
        var _ := crossed[i].Capture(result.target);
      }
    }

    function FindClosestFnFrame(ghost s: Scopes): (r: LocalFrame)
      requires Linked(s) && this in s
      ensures r in s && (r.frameType.Fn? || r.parent == null)
      decreases depth
    {
      if frameType.Fn? || parent == null then this else parent.FindClosestFnFrame(s)
    }

    static function WithinSameFn(l: LocalFrame, r: LocalFrame, ghost s: Scopes): bool
      requires Linked(s) && l in s && r in s
    {
      l.FindClosestFnFrame(s) == r.FindClosestFnFrame(s)
    }
  }

  /** The capture map of `f` was `before` and now also has a capture of `binding`. */
  ghost predicate Entered(f: LocalFrame, binding: LocalBinding, before: map<Symbol, LocalBinding>)
    reads f
  {
    && binding.name in f.captures
    && IsCaptureOf(f.captures[binding.name], binding)
    && f.captures == before[binding.name := f.captures[binding.name]]
  }

  /** The capture map of `f` was `before`; now the name is in it, marked as captured, with its entry new if there was none. */
  ghost predicate Registered(f: LocalFrame, binding: LocalBinding, before: map<Symbol, LocalBinding>)
    reads f, f.Entry(binding.name)
  {
    && binding.name in f.captures && f.captures[binding.name].MarkedAsCapture()
    && (if binding.name in before then f.captures == before else Entered(f, binding, before))
  }

  /** `c` is a capture that was copied from `b`. */
  ghost predicate IsCaptureOf(c: LocalBinding, b: LocalBinding) {
    c.name == b.name && c.origin == b && c.recursionOf == null && c.age == b.age + 1
  }

  lemma OutwardTwice<T>(crossed: seq<LocalFrame>, f: LocalFrame, r: Option<Found<T>>)
    ensures Outward(crossed, Outward(Crossing(f), r)) == Outward(crossed + Crossing(f), r)
  {
    if r.Some? {
      assert crossed + (Crossing(f) + r.value.crossedFns) == crossed + Crossing(f) + r.value.crossedFns;
    }
  }

  lemma OutwardEnds<T>(crossed: seq<LocalFrame>, r: Option<Found<T>>)
    ensures Outward([], r) == r
    ensures r.Some? && r.value.crossedFns == [] ==> Outward(crossed, r) == Some(Found(r.value.target, crossed))
  {
    if r.Some? {
      assert [] + r.value.crossedFns == r.value.crossedFns;
      assert crossed + [] == crossed;
    }
  }
}
