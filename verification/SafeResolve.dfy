/** Resolving a user-supplied path below the directory of a volume. */
module SafeResolve {
  import opened Common
  import opened Text

  datatype Component = RootDir | CurDir | ParentDir | Normal(name: string)

  type Path = seq<Component>

  // ---------- std::path, on Unix ----------

  /** What one segment between slashes contributes; empty ones and "." nothing. */
  function Segment(segment: string): Path {
    if segment == "" || segment == "." then [] else if segment == ".." then [ParentDir] else [Normal(segment)]
  }

  function Parts(s: string): Path
    decreases |s|
  {
    var i := Find(s, '/', 0);
    if i == |s| then Segment(s) else Segment(s[..i]) + Parts(s[i + 1..])
  }

  /** `Path::new(s).components()`: only a leading "." and a leading slash show besides the segments. */
  function Components(s: string): Path {
    if |s| > 0 && s[0] == '/' then [RootDir] + Parts(s[1..])
    else if s[..Find(s, '/', 0)] == "." then [CurDir] + Parts(s)
    else Parts(s)
  }

  // ---------- specification: a stack of names ----------

  function NormaliseFrom(stack: seq<string>, cs: Path): Option<seq<string>>
    decreases |cs|
  {
    if |cs| == 0 then Some(stack) else
    match cs[0]
    case Normal(name) => NormaliseFrom(stack + [name], cs[1..])
    case ParentDir => if |stack| == 0 then None else NormaliseFrom(stack[..|stack| - 1], cs[1..])
    case _ => NormaliseFrom(stack, cs[1..])
  }

  function Names(stack: seq<string>): (p: Path)
    ensures |p| == |stack|
    ensures forall i :: 0 <= i < |p| ==> p[i] == Normal(stack[i])
  {
    if |stack| == 0 then [] else [Normal(stack[0])] + Names(stack[1..])
  }

  function Resolve(base: Path, relative: string): Option<Path> {
    match NormaliseFrom([], Components(relative))
    case None => None
    case Some(stack) => Some(base + Names(stack))
  }

  datatype PathError = OutsideBase

  method SafeResolve(base: Path, relative: string) returns (r: Result<Path, PathError>)
    ensures r == match Resolve(base, relative) case Some(p) => Ok(p) case None => Err(OutsideBase)
    ensures r.Ok? ==> base <= r.value
  {
    var resolved := base;
    var components := Components(relative);
    ghost var stack: seq<string> := [];
    for i := 0 to |components|
      invariant resolved == base + Names(stack)
      invariant NormaliseFrom(stack, components[i..]) == NormaliseFrom([], components)
    {
      assert components[i..][1..] == components[i + 1..];
      match components[i] {
        case Normal(name) =>
          resolved := resolved + [Normal(name)];
          stack := stack + [name];
        case ParentDir =>
          assert |resolved| == |base| + |stack|;
          if base <= resolved && resolved != base {
            resolved := resolved[..|resolved| - 1];
            stack := stack[..|stack| - 1];
          } else {
            return Err(OutsideBase);
          }
        case _ =>
      }
    }
    if base <= resolved {
      r := Ok(resolved);
    } else {
      r := Err(OutsideBase);
    }
  }

  // ---------- when it succeeds ----------

  function Depth(cs: Path): int {
    if |cs| == 0 then 0
    else Depth(cs[..|cs| - 1]) + match cs[|cs| - 1] case Normal(_) => 1 case ParentDir => -1 case _ => 0
  }

  lemma {:induction false} DepthOfTail(c: Component, cs: Path)
    ensures Depth([c] + cs) == Depth([c]) + Depth(cs)
  {
    if |cs| == 0 {
      assert [c] + cs == [c];
    } else {
      DepthOfTail(c, cs[..|cs| - 1]);
      assert ([c] + cs)[..|[c] + cs| - 1] == [c] + cs[..|cs| - 1];
    }
  }

  /** Some part of the path, read from its start, climbs further than the stack is high. */
  ghost predicate Climbs(height: nat, cs: Path) {
    exists n :: 0 <= n <= |cs| && height + Depth(cs[..n]) < 0
  }

  lemma {:induction false} NormaliseExactly(stack: seq<string>, cs: Path)
    ensures NormaliseFrom(stack, cs).None? <==> Climbs(|stack|, cs)
    ensures NormaliseFrom(stack, cs).Some? ==> |NormaliseFrom(stack, cs).value| == |stack| + Depth(cs)
    decreases |cs|
  {
    if |cs| == 0 {
      assert forall n :: 0 <= n <= |cs| ==> cs[..n] == [];
    } else {
      var rest := cs[1..];
      assert cs == [cs[0]] + rest;
      DepthOfTail(cs[0], rest);
      var next := match cs[0]
        case Normal(name) => stack + [name]
        case ParentDir => if |stack| == 0 then stack else stack[..|stack| - 1]
        case _ => stack;
      NormaliseExactly(next, rest);
      ClimbsOneStep(|stack|, cs);
    }
  }

  lemma ClimbsOneStep(height: nat, cs: Path)
    requires |cs| > 0
    ensures height + Depth([cs[0]]) < 0 ==> Climbs(height, cs)
    ensures height + Depth([cs[0]]) >= 0 ==> (Climbs(height, cs) <==> Climbs(height + Depth([cs[0]]), cs[1..]))
  {
    var h := height + Depth([cs[0]]);
    forall n | 0 <= n < |cs| ensures Depth(cs[..n + 1]) == Depth([cs[0]]) + Depth(cs[1..][..n]) {
      DepthOfTail(cs[0], cs[1..][..n]);
      assert cs[..n + 1] == [cs[0]] + cs[1..][..n];
    }
    assert cs[..1] == [cs[0]] && cs[..0] == [];
    if h >= 0 {
      if Climbs(height, cs) {
        var n :| 0 <= n <= |cs| && height + Depth(cs[..n]) < 0;
        assert n > 0 && h + Depth(cs[1..][..n - 1]) < 0;
      }
      if Climbs(h, cs[1..]) {
        var n :| 0 <= n <= |cs[1..]| && h + Depth(cs[1..][..n]) < 0;
        assert height + Depth(cs[..n + 1]) < 0;
      }
    }
  }

  /** The path is refused exactly when some prefix of it has more ".." than names. */
  lemma ResolvesExactly(base: Path, relative: string)
    ensures Resolve(base, relative).None? <==> Climbs(0, Components(relative))
    ensures Resolve(base, relative).Some? ==> |Resolve(base, relative).value| == |base| + Depth(Components(relative))
  {
    NormaliseExactly([], Components(relative));
  }

  // ---------- what it returns ----------

  predicate IsName(s: string) {
    s != "" && s != "." && s != ".." && '/' !in s
  }

  ghost predicate ProperParts(cs: Path) {
    forall c <- cs :: c == ParentDir || (c.Normal? && IsName(c.name))
  }

  lemma SegmentIsProper(segment: string)
    requires '/' !in segment
    ensures ProperParts(Segment(segment))
  {}

  lemma {:induction false} PartsAreNames(s: string)
    ensures ProperParts(Parts(s))
    decreases |s|
  {
    var i := Find(s, '/', 0);
    if i == |s| {
      SegmentIsProper(s);
    } else {
      SegmentIsProper(s[..i]);
      PartsAreNames(s[i + 1..]);
    }
  }

  lemma {:induction false} StackOfNames(stack: seq<string>, cs: Path)
    requires forall s <- stack :: IsName(s)
    requires forall c <- cs :: c.Normal? ==> IsName(c.name)
    ensures NormaliseFrom(stack, cs).Some? ==> forall s <- NormaliseFrom(stack, cs).value :: IsName(s)
    decreases |cs|
  {
    if |cs| > 0 {
      assert cs[0] in cs;
      match cs[0]
      case Normal(name) => StackOfNames(stack + [name], cs[1..]);
      case ParentDir => if |stack| > 0 { StackOfNames(stack[..|stack| - 1], cs[1..]); }
      case _ => StackOfNames(stack, cs[1..]);
    }
  }

  /** Below the base there are proper names only: the result cannot leave it, however it is read. */
  lemma ResolvedIsBelow(base: Path, relative: string)
    requires Resolve(base, relative).Some?
    ensures var p := Resolve(base, relative).value;
      base <= p && forall i :: |base| <= i < |p| ==> p[i].Normal? && IsName(p[i].name)
  {
    PartsAreNames(relative);
    if |relative| > 0 { PartsAreNames(relative[1..]); }
    StackOfNames([], Components(relative));
  }

  // ---------- resolving step by step ----------

  lemma {:induction false} NormaliseAppend(stack: seq<string>, a: Path, b: Path)
    ensures NormaliseFrom(stack, a + b) ==
      match NormaliseFrom(stack, a) case None => None case Some(mid) => NormaliseFrom(mid, b)
    decreases |a|
  {
    if |a| == 0 {
      assert a + b == b;
    } else {
      assert (a + b)[1..] == a[1..] + b;
      match a[0]
      case Normal(name) => NormaliseAppend(stack + [name], a[1..], b);
      case ParentDir => if |stack| > 0 { NormaliseAppend(stack[..|stack| - 1], a[1..], b); }
      case _ => NormaliseAppend(stack, a[1..], b);
    }
  }

  lemma ComponentsAsParts(stack: seq<string>, s: string)
    ensures NormaliseFrom(stack, Components(s)) == NormaliseFrom(stack, Parts(s))
  {
    if |s| > 0 && s[0] == '/' {
      assert Find(s, '/', 0) == 0;
      assert Components(s)[1..] == Parts(s[1..]) == Parts(s);
    } else if s[..Find(s, '/', 0)] == "." {
      assert Components(s)[1..] == Parts(s);
    }
  }

  lemma FindIs(s: string, i: nat)
    requires i < |s| && s[i] == '/' && forall k :: 0 <= k < i ==> s[k] != '/'
    ensures Find(s, '/', 0) == i
  {
    var r := Find(s, '/', 0);
    assert !(r < i) && !(i < r);
  }

  lemma SlicesOfJoined(a: string, tail: string, i: nat)
    requires i <= |a| && |tail| > 0
    ensures (a + tail)[..i] == a[..i]
    ensures i == |a| ==> (a + tail)[i + 1..] == tail[1..]
    ensures i < |a| ==> (a + tail)[i + 1..] == a[i + 1..] + tail
  {}

  lemma FindInJoined(a: string, tail: string, i: nat)
    requires |tail| > 0 && tail[0] == '/' && i == Find(a, '/', 0)
    ensures Find(a + tail, '/', 0) == i
  {
    var s := a + tail;
    assert s[i] == if i < |a| then a[i] else tail[0];
    forall k | 0 <= k < i ensures s[k] != '/' { assert s[k] == a[k]; }
    FindIs(s, i);
  }

  lemma PartsStep(s: string, i: nat)
    requires i == Find(s, '/', 0)
    ensures i == |s| ==> Parts(s) == Segment(s)
    ensures i < |s| ==> Parts(s) == Segment(s[..i]) + Parts(s[i + 1..])
  {
  }

  lemma {:induction false} PartsOfJoined(a: string, tail: string)
    requires |tail| > 0 && tail[0] == '/'
    ensures Parts(a + tail) == Parts(a) + Parts(tail[1..])
    decreases |a|
  {
    var i := Find(a, '/', 0);
    FindInJoined(a, tail, i);
    SlicesOfJoined(a, tail, i);
    PartsStep(a, i);
    PartsStep(a + tail, i);
    if i < |a| {
      PartsOfJoined(a[i + 1..], tail);
      Associative(Segment(a[..i]), Parts(a[i + 1..]), Parts(tail[1..]));
    }
  }

  lemma Associative(x: Path, y: Path, z: Path)
    ensures x + (y + z) == (x + y) + z
  {}

  /** The same names pushed on a taller stack end up on top of the same part of it. */
  lemma {:induction false} TallerStack(below: seq<string>, stack: seq<string>, cs: Path)
    requires NormaliseFrom(stack, cs).Some?
    ensures NormaliseFrom(below + stack, cs) == Some(below + NormaliseFrom(stack, cs).value)
    decreases |cs|
  {
    if |cs| > 0 {
      match cs[0]
      case Normal(name) =>
        assert below + stack + [name] == below + (stack + [name]);
        TallerStack(below, stack + [name], cs[1..]);
      case ParentDir =>
        assert (below + stack)[..|below + stack| - 1] == below + stack[..|stack| - 1];
        TallerStack(below, stack[..|stack| - 1], cs[1..]);
      case _ => TallerStack(below, stack, cs[1..]);
    }
  }

  /** Resolving `b` below the resolved `a` gives what resolving "a/b" gives. */
  lemma ResolveInTwoSteps(base: Path, a: string, b: string)
    requires Resolve(base, a).Some? && Resolve(Resolve(base, a).value, b).Some?
    ensures Resolve(base, a + "/" + b) == Resolve(Resolve(base, a).value, b)
  {
    var below := NormaliseFrom([], Components(a)).value;
    var top := NormaliseFrom([], Components(b)).value;
    NormaliseJoined(a, b, below, top);
    NamesAppend(below, top);
    assert base + (Names(below) + Names(top)) == base + Names(below) + Names(top);
  }

  lemma NormaliseJoined(a: string, b: string, below: seq<string>, top: seq<string>)
    requires NormaliseFrom([], Components(a)) == Some(below) && NormaliseFrom([], Components(b)) == Some(top)
    ensures NormaliseFrom([], Components(a + "/" + b)) == Some(below + top)
  {
    var joined := a + "/" + b;
    ComponentsAsParts([], a);
    ComponentsAsParts([], b);
    ComponentsAsParts([], joined);
    PartsOfSlashed(a, b, joined);
    AppendedStack(Parts(a), Parts(b), below, top);
  }

  lemma PartsOfSlashed(a: string, b: string, joined: string)
    requires joined == a + "/" + b
    ensures Parts(joined) == Parts(a) + Parts(b)
  {
    var tail := "/" + b;
    assert joined == a + tail && tail[1..] == b;
    PartsOfJoined(a, tail);
  }

  lemma AppendedStack(a: Path, b: Path, below: seq<string>, top: seq<string>)
    requires NormaliseFrom([], a) == Some(below) && NormaliseFrom([], b) == Some(top)
    ensures NormaliseFrom([], a + b) == Some(below + top)
  {
    NormaliseAppend([], a, b);
    TallerStack(below, [], b);
    assert below + [] == below;
  }

  lemma NamesAppend(below: seq<string>, top: seq<string>)
    ensures Names(below + top) == Names(below) + Names(top)
  {}

  // ---------- segment by segment ----------

  lemma JoinedResolve(base: Path, a: string, b: string)
    ensures NormaliseFrom([], Components(a + "/" + b)) ==
      match NormaliseFrom([], Components(a)) case None => None case Some(stack) => NormaliseFrom(stack, Parts(b))
  {
    ComponentsAsParts([], a);
    ComponentsAsParts([], a + "/" + b);
    PartsOfSlashed(a, b, a + "/" + b);
    NormaliseAppend([], Parts(a), Parts(b));
  }

  lemma PartsOfSegment(segment: string)
    requires '/' !in segment
    ensures Parts(segment) == Segment(segment)
  {
    PartsStep(segment, |segment|);
  }

  /** The empty path is the base itself. */
  lemma ResolvesEmpty(base: Path)
    ensures Resolve(base, "") == Some(base)
  {
    assert base + [] == base;
  }

  /** A proper name goes one level down, to that very name. */
  lemma ResolvesName(base: Path, a: string, name: string)
    requires IsName(name)
    ensures Resolve(base, a + "/" + name) ==
      match Resolve(base, a) case None => None case Some(p) => Some(p + [Normal(name)])
  {
    JoinedResolve(base, a, name);
    PartsOfSegment(name);
    if NormaliseFrom([], Components(a)).Some? {
      var stack := NormaliseFrom([], Components(a)).value;
      NamesAppend(stack, [name]);
      assert Names([name]) == [Normal(name)];
      assert base + (Names(stack) + [Normal(name)]) == base + Names(stack) + [Normal(name)];
    }
  }

  /** ".." goes one level up, to the parent, and is refused at the base. */
  lemma ResolvesParent(base: Path, a: string)
    ensures Resolve(base, a + "/" + "..") ==
      match Resolve(base, a)
      case None => None
      case Some(p) => if p == base then None else Some(p[..|p| - 1])
  {
    JoinedResolve(base, a, "..");
    PartsOfSegment("..");
    if NormaliseFrom([], Components(a)).Some? {
      var stack := NormaliseFrom([], Components(a)).value;
      assert |base + Names(stack)| == |base| + |stack|;
      if |stack| > 0 {
        var up := stack[..|stack| - 1];
        assert (base + Names(stack))[..|base| + |stack| - 1] == base + Names(up);
      }
    }
  }

  /** An empty segment and "." change nothing. */
  lemma ResolvesNothing(base: Path, a: string, segment: string)
    requires segment == "" || segment == "."
    ensures Resolve(base, a + "/" + segment) == Resolve(base, a)
  {
    JoinedResolve(base, a, segment);
    PartsOfSegment(segment);
  }

  lemma OneMoreName(base: Path, names: seq<string>)
    requires |names| > 0
    ensures base + Names(names) == base + Names(names[..|names| - 1]) + [Normal(names[|names| - 1])]
  {
    var (init, last) := (names[..|names| - 1], names[|names| - 1]);
    NamesAppend(init, [last]);
    assert init + [last] == names;
    assert Names([last]) == [Normal(last)];
    Associative(base, Names(init), [Normal(last)]);
  }

  function Slashed(names: seq<string>): string {
    if |names| == 0 then "" else Slashed(names[..|names| - 1]) + "/" + names[|names| - 1]
  }

  /** So a path of proper names is these names below the base. */
  lemma {:induction false} ResolvesNames(base: Path, names: seq<string>)
    requires forall name <- names :: IsName(name)
    ensures Resolve(base, Slashed(names)) == Some(base + Names(names))
  {
    if |names| == 0 {
      ResolvesEmpty(base);
    } else {
      var (init, last) := (names[..|names| - 1], names[|names| - 1]);
      ResolvesNames(base, init);
      ResolvesName(base, Slashed(init), last);
      OneMoreName(base, names);
    }
  }
}
