/**
  The analyzer's scopes as a state machine, and what its captures mean in every reachable state.

  A capture map is a cache in front of lexical lookup. The reference is `Find` without captures, together with
  the search for an enclosing fn of that name, which the analyzer tries when no local is found.
 */
module CaptureTheory {

  import opened Wrappers
  import opened LocalFrames

  /** Every frame opened so far, and the frame in which analysis goes on. */
  datatype World = World(scopes: Scopes, current: LocalFrame)

  datatype Step =
    | OpenFrame(frame: LocalFrame)
    | Bind(binding: LocalBinding)
      /** Looks a symbol up and captures it: `entered` are the captures made, `recursion` the binding made for a named fn. */
    | Resolve(sym: Symbol, entered: map<LocalFrame, LocalBinding>, recursion: LocalBinding?)
    | CloseFrame

  /** `g` is `f` or encloses it. */
  ghost predicate Encloses(g: LocalFrame, f: LocalFrame)
    decreases f.depth
  {
    g == f || (f.parent != null && f.parent.depth < f.depth && Encloses(g, f.parent))
  }

  ghost predicate IsLocal(b: LocalBinding, sym: Symbol) {
    b.name == sym && b.origin == null && b.recursionOf == null
  }

  ghost predicate IsCapture(c: LocalBinding, sym: Symbol) {
    c.name == sym && c.origin != null && c.origin.age < c.age
  }

  // ---------------------------------------------------------------------------------------------
  // Steps
  // ---------------------------------------------------------------------------------------------

  /** Which fns a lookup captures the symbol in, and the binding it captures. */
  ghost function CaptureTarget(w: World, sym: Symbol, recursion: LocalBinding?): Option<FindResult>
    requires Linked(w.scopes) && w.current in w.scopes
  {
    match Find(w.scopes, w.current, sym, true)
    case Some(found) => Some(found)
    case None =>
      match FindNamed(w.scopes, w.current, sym)
      case Some(named) => if recursion == null then None else Some(Found(recursion, named.crossedFns))
      case None => None
  }

  ghost predicate Enabled(w: World, step: Step)
    requires Linked(w.scopes) && w.current in w.scopes
  {
    match step
    case OpenFrame(f) => f !in w.scopes && f.parent == w.current && w.current.depth < f.depth
    case Bind(b) => IsLocal(b, b.name)
    case CloseFrame => w.current.parent != null
    case Resolve(sym, entered, recursion) =>
      && (match FindNamed(w.scopes, w.current, sym)
          case Some(named) =>
            Find(w.scopes, w.current, sym, true).None? ==>
              && recursion != null && recursion.name == sym && recursion.origin == null
              && recursion.recursionOf == named.target
          case None => true)
      && var target := CaptureTarget(w, sym, recursion);
      && entered.Keys == (if target.None? then {} else set f | f in target.value.crossedFns)
      && forall f :: f in entered ==> IsCaptureOf(entered[f], target.value.target)
  }

  ghost function Next(w: World, step: Step): World
    requires Linked(w.scopes) && w.current in w.scopes && Enabled(w, step)
  {
    match step
    case OpenFrame(f) => World(w.scopes[f := Contents(map[], map[])], f)
    case Bind(b) => World(w.scopes[w.current := WithLocal(w.scopes[w.current], b)], w.current)
    case Resolve(sym, entered, _) => World(WithCaptures(w.scopes, sym, entered), w.current)
    case CloseFrame => World(w.scopes, w.current.parent)
  }

  ghost function WithLocal(c: Contents, b: LocalBinding): Contents {
    var earlier := if b.name in c.locals then c.locals[b.name] else [];
    c.(locals := c.locals[b.name := earlier + [b]])
  }

  ghost function WithCaptures(s: Scopes, sym: Symbol, entered: map<LocalFrame, LocalBinding>): Scopes {
    map f | f in s :: if f in entered then s[f].(captures := s[f].captures[sym := entered[f]]) else s[f]
  }

  ghost predicate Initial(w: World) {
    w.current.parent == null && w.scopes == map[w.current := Contents(map[], map[])]
  }

  // ---------------------------------------------------------------------------------------------
  // The invariant
  // ---------------------------------------------------------------------------------------------

  /**
    Without leaving the fn it is in, frame `p` can get at `sym`: as a local, as a capture, or because that fn is
    the fn `self` the symbol stands for.
   */
  ghost predicate Supplies(s: Scopes, p: LocalFrame, sym: Symbol, self: LocalFrame?)
    requires Linked(s) && p in s
    decreases p.depth
  {
    || sym in s[p].locals
    || sym in s[p].captures
    || p == self
    || (!p.frameType.Fn? && p.parent != null && Supplies(s, p.parent, sym, self))
  }

  /** What the end `e` of a chain of captures of `sym`, seen from frame `p`, may be. */
  ghost predicate Denotes(s: Scopes, p: LocalFrame, sym: Symbol, e: LocalBinding)
    requires Linked(s) && p in s
  {
    match Find(s, p, sym, false)
    case Some(found) => e == found.target
    case None => e.recursionOf != null && e.recursionOf.IsFnNamed(sym) && Encloses(e.recursionOf, p)
  }

  ghost predicate WellFormed(w: World) {
    && Linked(w.scopes) && w.current in w.scopes
    && (forall f, k, i :: f in w.scopes && k in w.scopes[f].locals && 0 <= i < |w.scopes[f].locals[k]| ==>
          IsLocal(w.scopes[f].locals[k][i], k))
    && (forall f, k :: f in w.scopes && k in w.scopes[f].captures ==>
          f.frameType.Fn? && f.parent != null && IsCapture(w.scopes[f].captures[k], k))
  }

  ghost predicate Inv(w: World) {
    && WellFormed(w)
    && (forall f, k :: f in w.scopes && k in w.scopes[f].captures ==>
          Supplies(w.scopes, f.parent, k, Follow(w.scopes[f].captures[k]).recursionOf))
    && (forall f, k :: f in w.scopes && k in w.scopes[f].captures && Encloses(f, w.current) ==>
          Denotes(w.scopes, f.parent, k, Follow(w.scopes[f].captures[k])))
  }

  // ---------------------------------------------------------------------------------------------
  // Lookup facts
  // ---------------------------------------------------------------------------------------------

  lemma {:induction false} EnclosesIsTransitive(a: LocalFrame, b: LocalFrame, c: LocalFrame)
    requires Encloses(a, b) && Encloses(b, c)
    ensures Encloses(a, c)
    decreases c.depth
  {
    if b != c {
      EnclosesIsTransitive(a, b, c.parent);
    }
  }

  lemma {:induction false} EnclosesIsOuter(g: LocalFrame, f: LocalFrame)
    requires Encloses(g, f)
    ensures g == f || g.depth < f.depth
    decreases f.depth
  {
    if g != f {
      EnclosesIsOuter(g, f.parent);
    }
  }

  /** Everything known about a fn that a search crossed before it found `r`. */
  ghost predicate CrossedOnTheWay(s: Scopes, f: LocalFrame, c: LocalFrame) {
    c in s && c.frameType.Fn? && c.parent != null && c.parent in s && Encloses(c, f)
  }

  /**
    A crossed fn has the symbol neither as a local nor as a capture, and the search from its parent finds the
    same binding.
   */
  lemma {:induction false} CrossedFnsLackTheSymbol(s: Scopes, f: LocalFrame, sym: Symbol, c: LocalFrame)
    requires Linked(s) && f in s
    requires Find(s, f, sym, true).Some? && c in Find(s, f, sym, true).value.crossedFns
    ensures CrossedOnTheWay(s, f, c)
    ensures sym !in s[c].locals && sym !in s[c].captures
    ensures Find(s, c.parent, sym, true).Some?
    ensures Find(s, c.parent, sym, true).value.target == Find(s, f, sym, true).value.target
    ensures forall d :: d in Find(s, c.parent, sym, true).value.crossedFns ==> d in Find(s, f, sym, true).value.crossedFns
    decreases f.depth
  {
    if c != f || !f.frameType.Fn? {
      CrossedFnsLackTheSymbol(s, f.parent, sym, c);
    }
  }

  lemma {:induction false} NamedCrossings(s: Scopes, f: LocalFrame, sym: Symbol, c: LocalFrame)
    requires Linked(s) && f in s
    requires FindNamed(s, f, sym).Some? && c in FindNamed(s, f, sym).value.crossedFns
    ensures CrossedOnTheWay(s, f, c) && !c.IsFnNamed(sym)
    ensures FindNamed(s, c.parent, sym).Some?
    ensures FindNamed(s, c.parent, sym).value.target == FindNamed(s, f, sym).value.target
    ensures forall d :: d in FindNamed(s, c.parent, sym).value.crossedFns ==> d in FindNamed(s, f, sym).value.crossedFns
    decreases f.depth
  {
    if c != f || !f.frameType.Fn? {
      NamedCrossings(s, f.parent, sym, c);
    }
  }

  lemma {:induction false} NamedEncloses(s: Scopes, f: LocalFrame, sym: Symbol)
    requires Linked(s) && f in s && FindNamed(s, f, sym).Some?
    ensures var g := FindNamed(s, f, sym).value.target; g in s && g.IsFnNamed(sym) && Encloses(g, f)
    decreases f.depth
  {
    if !f.IsFnNamed(sym) {
      NamedEncloses(s, f.parent, sym);
    }
  }

  /** Plain lookup sees only the locals of the frames on the way out. */
  lemma {:induction false} PlainFindDependsOnLocals(s: Scopes, t: Scopes, f: LocalFrame, sym: Symbol)
    requires Linked(s) && Linked(t) && f in s && f in t
    requires forall g :: g in s && Encloses(g, f) ==> g in t && t[g].locals == s[g].locals
    ensures Find(t, f, sym, false) == Find(s, f, sym, false)
    decreases f.depth
  {
    assert Encloses(f, f);
    if sym !in s[f].locals && f.parent != null {
      forall g | g in s && Encloses(g, f.parent) ensures g in t && t[g].locals == s[g].locals {
        assert Encloses(g, f);
      }
      PlainFindDependsOnLocals(s, t, f.parent, sym);
    }
  }

  lemma {:induction false} FindNamedDependsOnParents(s: Scopes, t: Scopes, f: LocalFrame, sym: Symbol)
    requires Linked(s) && Linked(t) && f in s && f in t
    ensures FindNamed(t, f, sym) == FindNamed(s, f, sym)
    decreases f.depth
  {
    if !f.IsFnNamed(sym) && f.parent != null {
      FindNamedDependsOnParents(s, t, f.parent, sym);
    }
  }

  // ---------------------------------------------------------------------------------------------
  // What the steps do to lookups
  // ---------------------------------------------------------------------------------------------

  /** A new local hides everything of its name that was found before, an earlier local of the same frame included. */
  lemma BindHidesEarlier(w: World, b: LocalBinding, allowCaptures: bool)
    requires Inv(w) && Enabled(w, Bind(b))
    ensures Inv(Next(w, Bind(b)))
    ensures Find(Next(w, Bind(b)).scopes, w.current, b.name, allowCaptures) == Some(Found(b, []))
  {
    StepKeepsInv(w, Bind(b));
  }

  /** Other names are found as before, from every frame; so is every name from a frame that the current one does not enclose. */
  lemma {:induction false} BindKeepsOthers(w: World, b: LocalBinding, f: LocalFrame, sym: Symbol, allowCaptures: bool)
    requires Inv(w) && Enabled(w, Bind(b)) && f in w.scopes && (sym != b.name || !Encloses(w.current, f))
    ensures Inv(Next(w, Bind(b)))
    ensures Find(Next(w, Bind(b)).scopes, f, sym, allowCaptures) == Find(w.scopes, f, sym, allowCaptures)
    decreases f.depth
  {
    StepKeepsInv(w, Bind(b));
    if f.parent != null {
      BindKeepsOthers(w, b, f.parent, sym, allowCaptures);
    }
  }

  /** From a new frame everything is found that was found from the frame around it; a new fn is crossed on the way. */
  lemma OpenLooksThrough(w: World, f: LocalFrame, sym: Symbol, allowCaptures: bool)
    requires Inv(w) && Enabled(w, OpenFrame(f))
    ensures Inv(Next(w, OpenFrame(f)))
    ensures var was, now := Find(w.scopes, w.current, sym, allowCaptures),
                            Find(Next(w, OpenFrame(f)).scopes, f, sym, allowCaptures);
            && (was.None? ==> now.None?)
            && (was.Some? ==> now.Some? && now.value.target == was.value.target)
            && (was.Some? ==> now.value.crossedFns
                              == if f.frameType == Fn then [f] + was.value.crossedFns else was.value.crossedFns)
  {
    StepKeepsInv(w, OpenFrame(f));
    OpenKeepsOthers(w, f, w.current, sym, allowCaptures);
    if Find(w.scopes, w.current, sym, allowCaptures).Some? {
      var crossed := Find(w.scopes, w.current, sym, allowCaptures).value.crossedFns;
      assert [] + crossed == crossed;
    }
  }

  lemma {:induction false} OpenKeepsOthers(w: World, f: LocalFrame, g: LocalFrame, sym: Symbol, allowCaptures: bool)
    requires Inv(w) && Enabled(w, OpenFrame(f)) && g in w.scopes
    ensures Inv(Next(w, OpenFrame(f)))
    ensures Find(Next(w, OpenFrame(f)).scopes, g, sym, allowCaptures) == Find(w.scopes, g, sym, allowCaptures)
    decreases g.depth
  {
    StepKeepsInv(w, OpenFrame(f));
    if g.parent != null {
      OpenKeepsOthers(w, f, g.parent, sym, allowCaptures);
    }
  }

  /** A new fn is found by its name from its own frame; other names lead to the fns around it, past the new one. */
  lemma OpenNamesTheFn(w: World, f: LocalFrame, sym: Symbol)
    requires Inv(w) && Enabled(w, OpenFrame(f))
    ensures Inv(Next(w, OpenFrame(f)))
    ensures var was, now := FindNamed(w.scopes, w.current, sym), FindNamed(Next(w, OpenFrame(f)).scopes, f, sym);
            if f.frameType == Fn && f.fnName == sym then
              now == Some(Found(f, []))
            else
              && (was.None? <==> now.None?)
              && (was.Some? ==> now.value.target == was.value.target)
              && (was.Some? ==> now.value.crossedFns
                                == if f.frameType == Fn then [f] + was.value.crossedFns else was.value.crossedFns)
  {
    StepKeepsInv(w, OpenFrame(f));
    FindNamedDependsOnParents(w.scopes, Next(w, OpenFrame(f)).scopes, w.current, sym);
    if FindNamed(w.scopes, w.current, sym).Some? {
      var crossed := FindNamed(w.scopes, w.current, sym).value.crossedFns;
      assert [] + crossed == crossed;
    }
  }

  /** Capturing a symbol changes no lookup of another one, and no lookup that passes captures by. */
  lemma {:induction false} ResolveKeepsOthers(w: World, step: Step, f: LocalFrame, sym: Symbol, allowCaptures: bool)
    requires Inv(w) && Enabled(w, step) && step.Resolve? && f in w.scopes && (sym != step.sym || !allowCaptures)
    ensures Inv(Next(w, step))
    ensures Find(Next(w, step).scopes, f, sym, allowCaptures) == Find(w.scopes, f, sym, allowCaptures)
    decreases f.depth
  {
    StepKeepsInv(w, step);
    if f.parent != null {
      ResolveKeepsOthers(w, step, f.parent, sym, allowCaptures);
    }
  }

  /** Nothing is found from the root frame to begin with. */
  lemma NothingIsFoundInitially(w: World, sym: Symbol, allowCaptures: bool)
    requires Initial(w)
    ensures Inv(w) && Find(w.scopes, w.current, sym, allowCaptures) == None
  {}

  // ---------------------------------------------------------------------------------------------
  // The cache agrees with lexical scoping
  // ---------------------------------------------------------------------------------------------

  /**
    From every open frame: where plain lookup finds a local, the lookup that stops at captures succeeds and its
    result leads back to that very local. Where plain lookup fails, a capture can only stand for an enclosing fn
    of that name.
   */
  lemma {:induction false} CapturesAgreeWithScoping(w: World, f: LocalFrame, sym: Symbol)
    requires Inv(w) && f in w.scopes && Encloses(f, w.current)
    ensures Find(w.scopes, f, sym, false).Some? ==> Find(w.scopes, f, sym, true).Some?
    ensures Find(w.scopes, f, sym, true).Some? ==>
              Denotes(w.scopes, f, sym, Follow(Find(w.scopes, f, sym, true).value.target))
    decreases f.depth
  {
    var s := w.scopes;
    if sym in s[f].locals {
      var b := Last(s[f].locals[sym]);
      assert IsLocal(b, sym);
      assert Follow(b) == b;
    } else if sym in s[f].captures {
      DenotesFromParent(s, f, sym, Follow(s[f].captures[sym]));
    } else if f.parent != null {
      EnclosesIsTransitive(f.parent, f, w.current);
      CapturesAgreeWithScoping(w, f.parent, sym);
      if Find(s, f.parent, sym, true).Some? {
        DenotesFromParent(s, f, sym, Follow(Find(s, f.parent, sym, true).value.target));
      }
    }
  }

  lemma DenotesFromParent(s: Scopes, f: LocalFrame, sym: Symbol, e: LocalBinding)
    requires Linked(s) && f in s && f.parent != null && sym !in s[f].locals
    requires Denotes(s, f.parent, sym, e)
    ensures Denotes(s, f, sym, e)
  {
    assert Encloses(f.parent, f);
    if Find(s, f.parent, sym, false).None? {
      EnclosesIsTransitive(e.recursionOf, f.parent, f);
    }
  }

  // ---------------------------------------------------------------------------------------------
  // Every step keeps the invariant
  // ---------------------------------------------------------------------------------------------

  lemma StepKeepsInv(w: World, step: Step)
    requires Inv(w) && Enabled(w, step)
    ensures Inv(Next(w, step))
  {
    match step
    case OpenFrame(f) => OpenKeepsInv(w, f);
    case Bind(b) => BindKeepsInv(w, b);
    case Resolve(sym, entered, recursion) => ResolveKeepsInv(w, sym, entered, recursion);
    case CloseFrame => CloseKeepsInv(w);
  }

  /** What a frame can get at only grows. */
  lemma {:induction false} SuppliesGrows(s: Scopes, t: Scopes, p: LocalFrame, sym: Symbol, self: LocalFrame?)
    requires Linked(s) && Linked(t) && p in s && Supplies(s, p, sym, self)
    requires forall f :: f in s ==> f in t && s[f].locals.Keys <= t[f].locals.Keys && s[f].captures.Keys <= t[f].captures.Keys
    ensures Supplies(t, p, sym, self)
    decreases p.depth
  {
    if sym !in s[p].locals && sym !in s[p].captures && p != self {
      SuppliesGrows(s, t, p.parent, sym, self);
    }
  }

  lemma DenotesIsStable(s: Scopes, t: Scopes, p: LocalFrame, sym: Symbol, e: LocalBinding)
    requires Linked(s) && Linked(t) && p in s && p in t
    requires forall g :: g in s && Encloses(g, p) ==> g in t && t[g].locals == s[g].locals
    requires Denotes(s, p, sym, e)
    ensures Denotes(t, p, sym, e)
  {
    PlainFindDependsOnLocals(s, t, p, sym);
  }

  /** Steps that add no capture keep the invariant if no open frame changes its locals, bar the current one. */
  lemma UnchangedCapturesKeepInv(w: World, v: World)
    requires Inv(w) && WellFormed(v)
    requires forall f :: f in w.scopes ==> f in v.scopes
    requires forall f :: f in w.scopes ==> w.scopes[f].locals.Keys <= v.scopes[f].locals.Keys
    requires forall f :: f in w.scopes ==> v.scopes[f].captures == w.scopes[f].captures
    requires forall f :: f in v.scopes && f !in w.scopes ==> v.scopes[f].captures == map[]
    requires forall f :: f in w.scopes && Encloses(f, v.current) ==> Encloses(f, w.current)
    requires forall f :: f in w.scopes && f != w.current ==> v.scopes[f].locals == w.scopes[f].locals
    ensures Inv(v)
  {
    var s, t := w.scopes, v.scopes;
    forall f, k | f in t && k in t[f].captures
      ensures Supplies(t, f.parent, k, Follow(t[f].captures[k]).recursionOf)
    {
      SuppliesGrows(s, t, f.parent, k, Follow(s[f].captures[k]).recursionOf);
    }
    forall f, k | f in t && k in t[f].captures && Encloses(f, v.current)
      ensures Denotes(t, f.parent, k, Follow(t[f].captures[k]))
    {
      forall g | g in s && Encloses(g, f.parent) ensures g in t && t[g].locals == s[g].locals {
        EnclosesIsOuter(g, f.parent);
        EnclosesIsOuter(f, w.current);
      }
      DenotesIsStable(s, t, f.parent, k, Follow(s[f].captures[k]));
    }
  }

  lemma OpenKeepsInv(w: World, f: LocalFrame)
    requires Inv(w) && Enabled(w, OpenFrame(f))
    ensures Inv(Next(w, OpenFrame(f)))
  {
    UnchangedCapturesKeepInv(w, Next(w, OpenFrame(f)));
  }

  lemma BindKeepsInv(w: World, b: LocalBinding)
    requires Inv(w) && Enabled(w, Bind(b))
    ensures Inv(Next(w, Bind(b)))
  {
    UnchangedCapturesKeepInv(w, Next(w, Bind(b)));
  }

  lemma CloseKeepsInv(w: World)
    requires Inv(w) && Enabled(w, CloseFrame)
    ensures Inv(Next(w, CloseFrame))
  {
    var v := Next(w, CloseFrame);
    forall f | f in w.scopes && Encloses(f, v.current) ensures Encloses(f, w.current) {
      assert Encloses(v.current, w.current);
      EnclosesIsTransitive(f, v.current, w.current);
    }
    UnchangedCapturesKeepInv(w, v);
  }

  lemma ResolveKeepsInv(w: World, sym: Symbol, entered: map<LocalFrame, LocalBinding>, recursion: LocalBinding?)
    requires Inv(w) && Enabled(w, Resolve(sym, entered, recursion))
    ensures Inv(Next(w, Resolve(sym, entered, recursion)))
  {
    var v := Next(w, Resolve(sym, entered, recursion));
    ResolveKeepsWellFormed(w, sym, entered, recursion);
    forall f, k | f in v.scopes && k in v.scopes[f].captures
      ensures Supplies(v.scopes, f.parent, k, Follow(v.scopes[f].captures[k]).recursionOf)
      ensures Encloses(f, v.current) ==> Denotes(v.scopes, f.parent, k, Follow(v.scopes[f].captures[k]))
    {
      CaptureStaysSupplied(w, sym, entered, recursion, f, k);
      CaptureStaysDenoting(w, sym, entered, recursion, f, k);
    }
  }

  lemma CaptureStaysSupplied(w: World, sym: Symbol, entered: map<LocalFrame, LocalBinding>, recursion: LocalBinding?,
                             f: LocalFrame, k: Symbol)
    requires Inv(w) && Enabled(w, Resolve(sym, entered, recursion))
    requires WellFormed(Next(w, Resolve(sym, entered, recursion)))
    requires var t := WithCaptures(w.scopes, sym, entered); f in t && k in t[f].captures
    ensures f.parent in WithCaptures(w.scopes, sym, entered)
    ensures var t := WithCaptures(w.scopes, sym, entered);
            Supplies(t, f.parent, k, Follow(t[f].captures[k]).recursionOf)
  {
    if f in entered && k == sym {
      EnteredFnsAreCrossed(w, sym, entered, recursion, f);
      EnteredCaptureIsSupplied(w, sym, entered, recursion, f);
    } else {
      SuppliesGrows(w.scopes, WithCaptures(w.scopes, sym, entered), f.parent, k, Follow(w.scopes[f].captures[k]).recursionOf);
    }
  }

  lemma CaptureStaysDenoting(w: World, sym: Symbol, entered: map<LocalFrame, LocalBinding>, recursion: LocalBinding?,
                             f: LocalFrame, k: Symbol)
    requires Inv(w) && Enabled(w, Resolve(sym, entered, recursion))
    requires var t := WithCaptures(w.scopes, sym, entered);
             Linked(t) && f in t && k in t[f].captures && f.parent != null && f.parent in t
    ensures var t := WithCaptures(w.scopes, sym, entered);
            Encloses(f, w.current) ==> Denotes(t, f.parent, k, Follow(t[f].captures[k]))
  {
    var t := WithCaptures(w.scopes, sym, entered);
    if Encloses(f, w.current) {
      if f in entered && k == sym {
        EnteredCaptureDenotes(w, sym, entered, recursion, f);
      }
      DenotesIsStable(w.scopes, t, f.parent, k, Follow(t[f].captures[k]));
    }
  }

  lemma ResolveKeepsWellFormed(w: World, sym: Symbol, entered: map<LocalFrame, LocalBinding>, recursion: LocalBinding?)
    requires Inv(w) && Enabled(w, Resolve(sym, entered, recursion))
    ensures WellFormed(Next(w, Resolve(sym, entered, recursion)))
  {
    forall f | f in entered ensures f in w.scopes && f.frameType.Fn? && f.parent != null && entered[f].name == sym {
      EnteredFnsAreCrossed(w, sym, entered, recursion, f);
    }
  }

  /** The frames that gain a capture are fns the search crossed, and what they capture bears the symbol's name. */
  lemma EnteredFnsAreCrossed(w: World, sym: Symbol, entered: map<LocalFrame, LocalBinding>, recursion: LocalBinding?,
                             f: LocalFrame)
    requires Inv(w) && Enabled(w, Resolve(sym, entered, recursion)) && f in entered
    ensures CrossedOnTheWay(w.scopes, w.current, f)
    ensures entered[f].name == sym && IsCapture(entered[f], sym)
  {
    match Find(w.scopes, w.current, sym, true)
    case Some(found) =>
      CrossedFnsLackTheSymbol(w.scopes, w.current, sym, f);
      FoundBindingHasName(w, w.current, sym);
    case None =>
      NamedCrossings(w.scopes, w.current, sym, f);
  }

  lemma {:induction false} FoundBindingHasName(w: World, f: LocalFrame, sym: Symbol)
    requires WellFormed(w) && f in w.scopes && Find(w.scopes, f, sym, true).Some?
    ensures Find(w.scopes, f, sym, true).value.target.name == sym
    decreases f.depth
  {
    var s := w.scopes;
    if sym in s[f].locals {
      assert IsLocal(Last(s[f].locals[sym]), sym);
    } else if sym !in s[f].captures {
      FoundBindingHasName(w, f.parent, sym);
    }
  }

  /** Every fn between a new capture and what it captures has the symbol, or is the fn the symbol names. */
  lemma EnteredCaptureIsSupplied(w: World, sym: Symbol, entered: map<LocalFrame, LocalBinding>,
                                 recursion: LocalBinding?, f: LocalFrame)
    requires Inv(w) && Enabled(w, Resolve(sym, entered, recursion)) && f in entered
    requires WellFormed(Next(w, Resolve(sym, entered, recursion)))
    ensures f.parent in w.scopes
    ensures Supplies(Next(w, Resolve(sym, entered, recursion)).scopes, f.parent, sym, Follow(entered[f]).recursionOf)
  {
    var t := Next(w, Resolve(sym, entered, recursion)).scopes;
    forall c | c in entered ensures CrossedOnTheWay(w.scopes, w.current, c) {
      EnteredFnsAreCrossed(w, sym, entered, recursion, c);
    }
    match Find(w.scopes, w.current, sym, true)
    case Some(found) =>
      CrossedFnsLackTheSymbol(w.scopes, w.current, sym, f);
      forall c | c in Find(w.scopes, f.parent, sym, true).value.crossedFns ensures c in t && sym in t[c].captures {
        assert c in entered;
      }
      FoundPathSupplies(w.scopes, t, f.parent, sym, Follow(entered[f]).recursionOf);
    case None =>
      NamedCrossings(w.scopes, w.current, sym, f);
      assert Follow(entered[f]) == recursion;
      forall c | c in FindNamed(w.scopes, f.parent, sym).value.crossedFns ensures c in t && sym in t[c].captures {
        assert c in entered;
      }
      NamedPathSupplies(w.scopes, t, f.parent, sym, recursion.recursionOf);
  }

  lemma {:induction false} FoundPathSupplies(s: Scopes, t: Scopes, p: LocalFrame, sym: Symbol, self: LocalFrame?)
    requires Linked(s) && Linked(t) && p in s
    requires forall f :: f in s ==> f in t && s[f].locals.Keys <= t[f].locals.Keys && s[f].captures.Keys <= t[f].captures.Keys
    requires Find(s, p, sym, true).Some?
    requires forall c :: c in Find(s, p, sym, true).value.crossedFns ==> c in t && sym in t[c].captures
    ensures Supplies(t, p, sym, self)
    decreases p.depth
  {
    if sym !in s[p].locals && sym !in s[p].captures {
      if p.frameType.Fn? {
        assert p in Find(s, p, sym, true).value.crossedFns;
      } else {
        FoundPathSupplies(s, t, p.parent, sym, self);
      }
    }
  }

  lemma {:induction false} NamedPathSupplies(s: Scopes, t: Scopes, p: LocalFrame, sym: Symbol, self: LocalFrame?)
    requires Linked(s) && Linked(t) && p in s && forall f :: f in s ==> f in t
    requires FindNamed(s, p, sym).Some? && FindNamed(s, p, sym).value.target == self
    requires forall c :: c in FindNamed(s, p, sym).value.crossedFns ==> c in t && sym in t[c].captures
    ensures Supplies(t, p, sym, self)
    decreases p.depth
  {
    if !p.IsFnNamed(sym) {
      if p.frameType.Fn? {
        assert p in FindNamed(s, p, sym).value.crossedFns;
      } else {
        NamedPathSupplies(s, t, p.parent, sym, self);
      }
    }
  }

  /** A new capture leads to what its symbol means just outside the capturing fn. */
  lemma EnteredCaptureDenotes(w: World, sym: Symbol, entered: map<LocalFrame, LocalBinding>, recursion: LocalBinding?,
                              f: LocalFrame)
    requires Inv(w) && Enabled(w, Resolve(sym, entered, recursion)) && f in entered
    ensures f.parent in w.scopes && Denotes(w.scopes, f.parent, sym, Follow(entered[f]))
  {
    EnteredFnsAreCrossed(w, sym, entered, recursion, f);
    assert Encloses(f.parent, f);
    EnclosesIsTransitive(f.parent, f, w.current);
    match Find(w.scopes, w.current, sym, true)
    case Some(found) =>
      CrossedFnsLackTheSymbol(w.scopes, w.current, sym, f);
      CapturesAgreeWithScoping(w, f.parent, sym);
      assert Follow(entered[f]) == Follow(found.target);
    case None =>
      NamedCrossings(w.scopes, w.current, sym, f);
      NamedEncloses(w.scopes, f.parent, sym);
      CapturesAgreeWithScoping(w, w.current, sym);
      PlainFindFailsFurtherOut(w.scopes, w.current, f.parent, sym);
      assert Follow(entered[f]) == recursion;
  }

  lemma {:induction false} PlainFindFailsFurtherOut(s: Scopes, f: LocalFrame, p: LocalFrame, sym: Symbol)
    requires Linked(s) && f in s && Encloses(p, f) && Find(s, f, sym, false).None?
    ensures p in s && Find(s, p, sym, false).None?
    decreases f.depth
  {
    if p != f {
      PlainFindFailsFurtherOut(s, f.parent, p, sym);
    }
  }

  // ---------------------------------------------------------------------------------------------
  // Runs
  // ---------------------------------------------------------------------------------------------

  ghost predicate IsRun(w: World, steps: seq<Step>)
    requires Inv(w)
    decreases |steps|
  {
    steps == [] ||
    (Enabled(w, steps[0]) && (StepKeepsInv(w, steps[0]); IsRun(Next(w, steps[0]), steps[1..])))
  }

  ghost function RunTo(w: World, steps: seq<Step>): (v: World)
    requires Inv(w) && IsRun(w, steps)
    ensures Inv(v)
    decreases |steps|
  {
    if steps == [] then w else (StepKeepsInv(w, steps[0]); RunTo(Next(w, steps[0]), steps[1..]))
  }

  lemma InitialInv(w: World)
    requires Initial(w)
    ensures Inv(w)
  {}

  /**
    The main result for locals. Whatever steps were taken, from every open frame the lookup through captures
    succeeds where plain lookup does and leads back to the same local; where only it succeeds, it leads back to an
    enclosing fn of the name.
   */
  lemma CapturesAgreeInEveryRun(w: World, steps: seq<Step>, f: LocalFrame, sym: Symbol)
    requires Initial(w) && (InitialInv(w); IsRun(w, steps))
    requires (InitialInv(w); var v := RunTo(w, steps); f in v.scopes && Encloses(f, v.current))
    ensures (InitialInv(w);
             var s := RunTo(w, steps).scopes;
             Find(s, f, sym, false).Some? ==>
               && Find(s, f, sym, true).Some?
               && Follow(Find(s, f, sym, true).value.target) == Find(s, f, sym, false).value.target)
    ensures (InitialInv(w);
             var s := RunTo(w, steps).scopes;
             Find(s, f, sym, false).None? && Find(s, f, sym, true).Some? ==>
               var g := Follow(Find(s, f, sym, true).value.target).recursionOf;
               g != null && g.IsFnNamed(sym) && Encloses(g, f))
  {
    InitialInv(w);
    CapturesAgreeWithScoping(RunTo(w, steps), f, sym);
  }

  /**
    Captures are closed upward, for open frames and for frames closed long ago: the fn around a capturing fn has
    the symbol itself, as a local or a capture, or is the fn that a captured recursion refers to.
   */
  lemma CapturesAreClosedUpward(w: World, f: LocalFrame, sym: Symbol)
    requires Inv(w) && f in w.scopes && sym in w.scopes[f].captures
    ensures f.parent != null && f.parent in w.scopes
    ensures Supplies(w.scopes, f.parent, sym, Follow(w.scopes[f].captures[sym]).recursionOf)
    ensures Follow(w.scopes[f].captures[sym]).recursionOf == null ==>
              Find(w.scopes, f.parent, sym, true).Some? && Find(w.scopes, f.parent, sym, true).value.crossedFns == []
  {
    if Follow(w.scopes[f].captures[sym]).recursionOf == null {
      SuppliedIsFoundWithoutCrossing(w.scopes, f.parent, sym);
    }
  }

  lemma {:induction false} SuppliedIsFoundWithoutCrossing(s: Scopes, p: LocalFrame, sym: Symbol)
    requires Linked(s) && p in s && Supplies(s, p, sym, null)
    ensures Find(s, p, sym, true).Some? && Find(s, p, sym, true).value.crossedFns == []
    decreases p.depth
  {
    if sym !in s[p].locals && sym !in s[p].captures {
      SuppliedIsFoundWithoutCrossing(s, p.parent, sym);
    }
  }

  /**
    After a symbol was looked up and captured, looking it up again crosses no fn. If the search had crossed fns,
    it now ends at the new capture of the innermost one.
   */
  lemma RepeatedLookupCrossesNothing(w: World, sym: Symbol, entered: map<LocalFrame, LocalBinding>, recursion: LocalBinding?)
    requires Inv(w) && Enabled(w, Resolve(sym, entered, recursion))
    requires CaptureTarget(w, sym, recursion).Some?
    ensures Inv(Next(w, Resolve(sym, entered, recursion)))
    ensures var t := Next(w, Resolve(sym, entered, recursion)).scopes;
            var target := CaptureTarget(w, sym, recursion).value;
            if target.crossedFns == [] then
              Find(t, w.current, sym, true) == Find(w.scopes, w.current, sym, true)
            else
              Find(t, w.current, sym, true) == Some(Found(entered[target.crossedFns[0]], []))
  {
    ResolveKeepsInv(w, sym, entered, recursion);
    forall c | c in entered ensures CrossedOnTheWay(w.scopes, w.current, c) {
      EnteredFnsAreCrossed(w, sym, entered, recursion, c);
    }
    var t := Next(w, Resolve(sym, entered, recursion)).scopes;
    var crossed := CaptureTarget(w, sym, recursion).value.crossedFns;
    assert CapturesAddedIn(w.scopes, t, sym, crossed);
    if crossed == [] {
      assert t == w.scopes;
    } else {
      assert crossed[0] in entered;
      match Find(w.scopes, w.current, sym, true)
      case Some(found) => FirstCrossedFnIsHit(w.scopes, t, w.current, sym, crossed);
      case None => FirstNamedCrossingIsHit(w.scopes, t, w.current, sym, crossed);
    }
  }

  /** `t` is `s` with captures of `sym` added in the given frames. */
  ghost predicate CapturesAddedIn(s: Scopes, t: Scopes, sym: Symbol, crossed: seq<LocalFrame>) {
    && (forall g :: g in s ==> g in t && t[g].locals == s[g].locals)
    && (forall g :: g in s && g !in crossed ==> t[g].captures == s[g].captures)
    && (forall g :: g in s && g in crossed ==> sym in t[g].captures)
  }

  lemma {:induction false} FirstCrossedFnIsHit(s: Scopes, t: Scopes, f: LocalFrame, sym: Symbol, crossed: seq<LocalFrame>)
    requires Linked(s) && Linked(t) && f in s && Find(s, f, sym, true).Some?
    requires crossed == Find(s, f, sym, true).value.crossedFns && crossed != []
    requires CapturesAddedIn(s, t, sym, crossed)
    ensures crossed[0] in s && Find(t, f, sym, true) == Some(Found(t[crossed[0]].captures[sym], []))
    decreases f.depth
  {
    assert sym !in s[f].locals && sym !in s[f].captures && f.parent != null;
    if f.frameType.Fn? {
      assert crossed[0] == f;
    } else {
      if f in crossed {
        CrossedFnsLackTheSymbol(s, f, sym, f);
      }
      OutwardEnds([], Find(s, f.parent, sym, true));
      FirstCrossedFnIsHit(s, t, f.parent, sym, crossed);
      assert sym !in t[f].captures;
      OutwardEnds([], Find(t, f.parent, sym, true));
    }
  }

  lemma {:induction false} FirstNamedCrossingIsHit(s: Scopes, t: Scopes, f: LocalFrame, sym: Symbol, crossed: seq<LocalFrame>)
    requires Linked(s) && Linked(t) && f in s && Find(s, f, sym, true).None? && FindNamed(s, f, sym).Some?
    requires crossed == FindNamed(s, f, sym).value.crossedFns && crossed != []
    requires CapturesAddedIn(s, t, sym, crossed)
    ensures crossed[0] in s && Find(t, f, sym, true) == Some(Found(t[crossed[0]].captures[sym], []))
    decreases f.depth
  {
    assert sym !in s[f].locals && sym !in s[f].captures && !f.IsFnNamed(sym) && f.parent != null;
    if f.frameType.Fn? {
      assert crossed[0] == f;
    } else {
      if f in crossed {
        NamedCrossings(s, f, sym, f);
      }
      OutwardEnds([], FindNamed(s, f.parent, sym));
      FirstNamedCrossingIsHit(s, t, f.parent, sym, crossed);
      assert sym !in t[f].captures;
      OutwardEnds([], Find(t, f.parent, sym, true));
    }
  }

  // ---------------------------------------------------------------------------------------------
  // References to an enclosing fn by name
  // ---------------------------------------------------------------------------------------------

  datatype Meaning = ToLocal(binding: LocalBinding) | ToFn(fnFrame: LocalFrame) | Unresolved

  /** What a symbol means lexically: the nearest binder, frame by frame. A fn's locals shadow its own name. */
  ghost function LexicalMeaning(s: Scopes, f: LocalFrame, sym: Symbol): Meaning
    requires Linked(s) && f in s
    decreases f.depth
  {
    if sym in s[f].locals then ToLocal(Last(s[f].locals[sym]))
    else if f.IsFnNamed(sym) then ToFn(f)
    else if f.parent == null then Unresolved
    else LexicalMeaning(s, f.parent, sym)
  }

  ghost function NamedMeaning(s: Scopes, f: LocalFrame, sym: Symbol): Meaning
    requires Linked(s) && f in s
  {
    match FindNamed(s, f, sym)
    case Some(named) => ToFn(named.target)
    case None => Unresolved
  }

  /** What the analyzer takes it to mean, going through captures first. */
  ghost function AnalyzedMeaning(s: Scopes, f: LocalFrame, sym: Symbol): Meaning
    requires Linked(s) && f in s
  {
    match Find(s, f, sym, true)
    case Some(found) =>
      var e := Follow(found.target);
      if e.recursionOf != null then ToFn(e.recursionOf) else ToLocal(e)
    case None => NamedMeaning(s, f, sym)
  }

  ghost predicate NoneNamed(crossed: seq<LocalFrame>, sym: Symbol) {
    forall c :: c in crossed ==> !c.IsFnNamed(sym)
  }

  /** No fn left on the way to the local bears the name; without a local, none left on the way to the capture does. */
  ghost predicate Unshadowed(s: Scopes, f: LocalFrame, sym: Symbol)
    requires Linked(s) && f in s
  {
    match Find(s, f, sym, false)
    case Some(found) => NoneNamed(found.crossedFns, sym)
    case None => Find(s, f, sym, true).None? || NoneNamed(Find(s, f, sym, true).value.crossedFns, sym)
  }

  /** Captured recursions of open frames refer to the nearest enclosing fn of that name. */
  ghost predicate Faithful(w: World)
    requires Inv(w)
  {
    forall f, k :: f in w.scopes && k in w.scopes[f].captures && Encloses(f, w.current)
                   && Find(w.scopes, f.parent, k, false).None? ==>
      NamedMeaning(w.scopes, f, k) == ToFn(Follow(w.scopes[f].captures[k]).recursionOf)
  }

  /**
    As long as all captured recursions are faithful, the analyzer's reading of a symbol is the lexical one
    exactly when the symbol is unshadowed.
   */
  lemma AnalyzedMeaningIsLexicalIffUnshadowed(w: World, f: LocalFrame, sym: Symbol)
    requires Inv(w) && Faithful(w) && f in w.scopes && Encloses(f, w.current)
    ensures AnalyzedMeaning(w.scopes, f, sym) == LexicalMeaning(w.scopes, f, sym) <==> Unshadowed(w.scopes, f, sym)
  {
    var s := w.scopes;
    CapturesAgreeWithScoping(w, f, sym);
    if Find(s, f, sym, false).Some? {
      PlainTargetIsLocal(w, f, sym);
      LocalIsNearestIffNoneNamed(s, f, sym);
    } else {
      NoLocalLeavesTheName(s, f, sym);
      if Find(s, f, sym, true).Some? {
        RecursionIsNearestIffUnshadowed(w, f, sym);
      }
    }
  }

  /** The local that plain lookup finds is the nearest binder exactly when no fn on the way to it bears the name. */
  lemma {:induction false} LocalIsNearestIffNoneNamed(s: Scopes, f: LocalFrame, sym: Symbol)
    requires Linked(s) && f in s && Find(s, f, sym, false).Some?
    ensures var found := Find(s, f, sym, false).value;
            LexicalMeaning(s, f, sym) == ToLocal(found.target) <==> NoneNamed(found.crossedFns, sym)
    decreases f.depth
  {
    if sym !in s[f].locals {
      LocalIsNearestIffNoneNamed(s, f.parent, sym);
      var crossed, outer := Find(s, f, sym, false).value.crossedFns, Find(s, f.parent, sym, false).value.crossedFns;
      assert crossed == Crossing(f) + outer;
      assert forall c :: c in crossed <==> c in Crossing(f) || c in outer;
      assert f.IsFnNamed(sym) ==> f in crossed;
    }
  }

  lemma {:induction false} NoLocalLeavesTheName(s: Scopes, f: LocalFrame, sym: Symbol)
    requires Linked(s) && f in s && Find(s, f, sym, false).None?
    ensures LexicalMeaning(s, f, sym) == NamedMeaning(s, f, sym)
    decreases f.depth
  {
    if f.parent != null && !f.IsFnNamed(sym) {
      NoLocalLeavesTheName(s, f.parent, sym);
    }
  }

  lemma {:induction false} PlainTargetIsLocal(w: World, f: LocalFrame, sym: Symbol)
    requires WellFormed(w) && f in w.scopes && Find(w.scopes, f, sym, false).Some?
    ensures IsLocal(Find(w.scopes, f, sym, false).value.target, sym)
    decreases f.depth
  {
    var s := w.scopes;
    if sym in s[f].locals {
      assert IsLocal(Last(s[f].locals[sym]), sym);
    } else {
      PlainTargetIsLocal(w, f.parent, sym);
    }
  }

  lemma {:induction false} RecursionIsNearestIffUnshadowed(w: World, f: LocalFrame, sym: Symbol)
    requires Inv(w) && Faithful(w) && f in w.scopes && Encloses(f, w.current)
    requires Find(w.scopes, f, sym, false).None? && Find(w.scopes, f, sym, true).Some?
    ensures Follow(Find(w.scopes, f, sym, true).value.target).recursionOf != null
    ensures var found := Find(w.scopes, f, sym, true).value;
            NamedMeaning(w.scopes, f, sym) == ToFn(Follow(found.target).recursionOf)
            <==> NoneNamed(found.crossedFns, sym)
    decreases f.depth
  {
    var s := w.scopes;
    if sym in s[f].captures {
      assert Find(s, f, sym, true).value.crossedFns == [];
    } else {
      EnclosesIsTransitive(f.parent, f, w.current);
      RecursionIsNearestIffUnshadowed(w, f.parent, sym);
      var found, outer := Find(s, f, sym, true).value, Find(s, f.parent, sym, true).value;
      assert found.crossedFns == Crossing(f) + outer.crossedFns;
      CapturesAgreeWithScoping(w, f.parent, sym);
      EnclosesIsOuter(Follow(outer.target).recursionOf, f.parent);
      if f.IsFnNamed(sym) {
        assert f in found.crossedFns;
      } else {
        assert forall c :: c in found.crossedFns ==> c in outer.crossedFns || c == f;
        assert forall c :: c in outer.crossedFns ==> c in found.crossedFns;
      }
    }
  }

  /** A search that crosses a fn on its way to a capture has passed no local yet. */
  lemma {:induction false} LocalsLieBeyondCrossedFns(s: Scopes, f: LocalFrame, sym: Symbol, c: LocalFrame)
    requires Linked(s) && f in s
    requires Find(s, f, sym, true).Some? && c in Find(s, f, sym, true).value.crossedFns
    requires Find(s, f, sym, false).Some?
    ensures c in s && c.parent != null && c.parent in s && Find(s, c.parent, sym, false).Some?
    decreases f.depth
  {
    if c != f || !f.frameType.Fn? {
      LocalsLieBeyondCrossedFns(s, f.parent, sym, c);
    }
  }

  lemma {:induction false} UnshadowedStepKeepsFaithful(w: World, step: Step)
    requires Inv(w) && Faithful(w) && Enabled(w, step)
    requires step.Resolve? ==> Unshadowed(w.scopes, w.current, step.sym)
    ensures Inv(Next(w, step)) && Faithful(Next(w, step))
  {
    StepKeepsInv(w, step);
    var v := Next(w, step);
    forall f, k | f in v.scopes && k in v.scopes[f].captures && Encloses(f, v.current)
                  && Find(v.scopes, f.parent, k, false).None?
      ensures NamedMeaning(v.scopes, f, k) == ToFn(Follow(v.scopes[f].captures[k]).recursionOf)
    {
      CaptureStaysFaithful(w, step, f, k);
    }
  }

  lemma CaptureStaysFaithful(w: World, step: Step, f: LocalFrame, k: Symbol)
    requires Inv(w) && Faithful(w) && Enabled(w, step)
    requires step.Resolve? ==> Unshadowed(w.scopes, w.current, step.sym)
    requires Inv(Next(w, step))
    requires var v := Next(w, step);
             && f in v.scopes && k in v.scopes[f].captures && Encloses(f, v.current)
             && Find(v.scopes, f.parent, k, false).None?
    ensures var v := Next(w, step); NamedMeaning(v.scopes, f, k) == ToFn(Follow(v.scopes[f].captures[k]).recursionOf)
  {
    var s, t := w.scopes, Next(w, step).scopes;
    CaptorsWereOpen(w, step, f, k);
    LocalsFurtherOutAreKept(w, step, f);
    FindNamedDependsOnParents(s, t, f, k);
    PlainFindDependsOnLocals(s, t, f.parent, k);
    if step.Resolve? && k == step.sym && f in step.entered {
      EnteredCaptureIsFaithful(w, k, step.entered, step.recursion, f);
    } else {
      assert k in s[f].captures && t[f].captures[k] == s[f].captures[k];
    }
  }

  lemma CaptorsWereOpen(w: World, step: Step, f: LocalFrame, k: Symbol)
    requires Inv(w) && Enabled(w, step)
    requires f in Next(w, step).scopes && k in Next(w, step).scopes[f].captures && Encloses(f, Next(w, step).current)
    ensures f in w.scopes && Encloses(f, w.current)
  {
    if step.CloseFrame? {
      assert Encloses(w.current.parent, w.current);
      EnclosesIsTransitive(f, w.current.parent, w.current);
    }
  }

  lemma LocalsFurtherOutAreKept(w: World, step: Step, f: LocalFrame)
    requires Inv(w) && Enabled(w, step) && Encloses(f, w.current) && f.parent != null
    requires f in w.scopes
    ensures forall g :: g in w.scopes && Encloses(g, f.parent) ==>
              g in Next(w, step).scopes && Next(w, step).scopes[g].locals == w.scopes[g].locals
  {
    EnclosesIsOuter(f, w.current);
    forall g | g in w.scopes && Encloses(g, f.parent)
      ensures g in Next(w, step).scopes && Next(w, step).scopes[g].locals == w.scopes[g].locals
    {
      EnclosesIsOuter(g, f.parent);
    }
  }

  lemma EnteredCaptureIsFaithful(w: World, sym: Symbol, entered: map<LocalFrame, LocalBinding>, recursion: LocalBinding?,
                                 f: LocalFrame)
    requires Inv(w) && Faithful(w) && Enabled(w, Resolve(sym, entered, recursion)) && f in entered
    requires Unshadowed(w.scopes, w.current, sym)
    requires f in w.scopes && f.parent != null && Find(w.scopes, f.parent, sym, false).None?
    ensures Follow(entered[f]).recursionOf != null
    ensures NamedMeaning(w.scopes, f, sym) == ToFn(Follow(entered[f]).recursionOf)
  {
    var s := w.scopes;
    EnteredCaptureDenotes(w, sym, entered, recursion, f);
    EnteredFnsAreCrossed(w, sym, entered, recursion, f);
    match Find(s, w.current, sym, true)
    case Some(found) =>
      CrossedFnsLackTheSymbol(s, w.current, sym, f);
      if Find(s, w.current, sym, false).Some? {
        LocalsLieBeyondCrossedFns(s, w.current, sym, f);
      }
      assert Encloses(f.parent, f);
      EnclosesIsTransitive(f.parent, f, w.current);
      RecursionIsNearestIffUnshadowed(w, f.parent, sym);
      assert Follow(entered[f]) == Follow(found.target);
    case None =>
      NamedCrossings(s, w.current, sym, f);
      assert Follow(entered[f]) == recursion;
  }

  /** Every lookup of the run was read lexically. */
  ghost predicate LexicalRun(w: World, steps: seq<Step>)
    requires Inv(w) && IsRun(w, steps)
    decreases |steps|
  {
    steps == [] ||
    (StepKeepsInv(w, steps[0]);
     && (steps[0].Resolve? ==>
           AnalyzedMeaning(w.scopes, w.current, steps[0].sym) == LexicalMeaning(w.scopes, w.current, steps[0].sym))
     && LexicalRun(Next(w, steps[0]), steps[1..]))
  }

  /** No lookup of the run left a fn of the symbol's name on its way. */
  ghost predicate UnshadowedRun(w: World, steps: seq<Step>)
    requires Inv(w) && IsRun(w, steps)
    decreases |steps|
  {
    steps == [] ||
    (StepKeepsInv(w, steps[0]);
     && (steps[0].Resolve? ==> Unshadowed(w.scopes, w.current, steps[0].sym))
     && UnshadowedRun(Next(w, steps[0]), steps[1..]))
  }

  /**
    The main result for all symbols. A run reads every symbol lexically exactly when none of its lookups is
    shadowed; `Analyzer.ShadowedRecursion` and `Analyzer.ShadowedByOuterLocal` take steps that are.
   */
  lemma {:induction false} RunIsLexicalIffUnshadowed(w: World, steps: seq<Step>)
    requires Inv(w) && Faithful(w) && IsRun(w, steps)
    ensures LexicalRun(w, steps) <==> UnshadowedRun(w, steps)
    decreases |steps|
  {
    if steps != [] {
      StepKeepsInv(w, steps[0]);
      if steps[0].Resolve? {
        assert Encloses(w.current, w.current);
        AnalyzedMeaningIsLexicalIffUnshadowed(w, w.current, steps[0].sym);
      }
      if steps[0].Resolve? ==> Unshadowed(w.scopes, w.current, steps[0].sym) {
        UnshadowedStepKeepsFaithful(w, steps[0]);
        RunIsLexicalIffUnshadowed(Next(w, steps[0]), steps[1..]);
      }
    }
  }

  lemma InitialIsFaithful(w: World)
    requires Initial(w)
    ensures Inv(w) && Faithful(w)
  {}

  // ---------------------------------------------------------------------------------------------
  // The fn a frame is in
  // ---------------------------------------------------------------------------------------------

  /** The closest fn frame is the innermost fn around the frame, or the root when there is none. */
  lemma {:induction false} ClosestFnIsInnermost(s: Scopes, f: LocalFrame)
    requires Linked(s) && f in s
    ensures var r := f.FindClosestFnFrame(s);
            && Encloses(r, f)
            && (forall g :: g in s && g.frameType.Fn? && Encloses(g, f) ==> r.frameType.Fn? && Encloses(g, r))
    decreases f.depth
  {
    if !f.frameType.Fn? && f.parent != null {
      ClosestFnIsInnermost(s, f.parent);
      assert Encloses(f.parent, f);
      EnclosesIsTransitive(f.parent.FindClosestFnFrame(s), f.parent, f);
    }
  }

  ghost predicate OneRoot(s: Scopes) {
    forall f, g :: f in s && g in s && f.parent == null && g.parent == null ==> f == g
  }

  lemma StepKeepsOneRoot(w: World, step: Step)
    requires Inv(w) && OneRoot(w.scopes) && Enabled(w, step)
    ensures OneRoot(Next(w, step).scopes)
  {}

  lemma {:induction false} RunKeepsOneRoot(w: World, steps: seq<Step>)
    requires Inv(w) && OneRoot(w.scopes) && IsRun(w, steps)
    ensures OneRoot(RunTo(w, steps).scopes)
    decreases |steps|
  {
    if steps != [] {
      StepKeepsInv(w, steps[0]);
      StepKeepsOneRoot(w, steps[0]);
      RunKeepsOneRoot(Next(w, steps[0]), steps[1..]);
    }
  }

  /** In every state that steps from the root frame reach, being within the same fn is being enclosed by the same fns. */
  lemma WithinSameFnInEveryRun(w: World, steps: seq<Step>, l: LocalFrame, r: LocalFrame)
    requires Initial(w) && (InitialInv(w); IsRun(w, steps))
    requires (InitialInv(w); l in RunTo(w, steps).scopes && r in RunTo(w, steps).scopes)
    ensures (InitialInv(w);
             var s := RunTo(w, steps).scopes;
             LocalFrame.WithinSameFn(l, r, s)
             <==> forall g :: g in s && g.frameType.Fn? ==> (Encloses(g, l) <==> Encloses(g, r)))
  {
    InitialInv(w);
    RunKeepsOneRoot(w, steps);
    WithinSameFnIffSameFnsEnclose(RunTo(w, steps).scopes, l, r);
  }

  /** Two frames are within the same fn exactly when the same fns enclose them. */
  lemma WithinSameFnIffSameFnsEnclose(s: Scopes, l: LocalFrame, r: LocalFrame)
    requires Linked(s) && OneRoot(s) && l in s && r in s
    ensures LocalFrame.WithinSameFn(l, r, s)
            <==> forall g :: g in s && g.frameType.Fn? ==> (Encloses(g, l) <==> Encloses(g, r))
  {
    var p, q := l.FindClosestFnFrame(s), r.FindClosestFnFrame(s);
    ClosestFnIsInnermost(s, l);
    ClosestFnIsInnermost(s, r);
    if p == q {
      forall g | g in s && g.frameType.Fn?
        ensures Encloses(g, l) <==> Encloses(g, r)
      {
        if Encloses(g, l) {
          EnclosesIsTransitive(g, q, r);
        }
        if Encloses(g, r) {
          EnclosesIsTransitive(g, p, l);
        }
      }
    } else if forall g :: g in s && g.frameType.Fn? ==> (Encloses(g, l) <==> Encloses(g, r)) {
      if p.frameType.Fn? {
        EnclosesIsOuter(p, q);
        EnclosesIsOuter(q, p);
      }
    }
  }
}
