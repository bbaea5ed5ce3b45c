/**
 * JVM binary names of classes (The Java Language Specification, section 13.1):
 * a member class is named after the class that contains it, `Outer$Inner`,
 * and an anonymous class after the class around it and its 1-based number,
 * `Outer$1`. The same walk, with '.', gives the short name `Outer.Inner`.
 */
module ClassNames {
  import opened Wrappers
  import opened KotlinText
  import opened PsiTree
  import opened AnonymousClasses

  /** Which outer-name getter the builder is given: the file passes exactly these two. */
  datatype OuterName = OuterQualified | OuterShort

  /** outerQualifiedName: the qualified name of a class that has no containing class. */
  function OuterQualifiedName(p: Project, c: ClassId): (r: Option<string>)
    requires c < |p.classes|
    ensures r.Some? <==> p.classes[c].containingClass.None? && p.classes[c].qualifiedName.Some?
    ensures r.Some? ==> r == p.classes[c].qualifiedName
  {
    if p.classes[c].containingClass.None? then p.classes[c].qualifiedName else None
  }

  /** outerShortName: the simple name of a class that has no containing class. */
  function OuterShortName(p: Project, c: ClassId): (r: Option<string>)
    requires c < |p.classes|
    ensures r.Some? <==> p.classes[c].containingClass.None? && p.classes[c].name.Some?
    ensures r.Some? ==> r == p.classes[c].name
  {
    if p.classes[c].containingClass.None? then p.classes[c].name else None
  }

  function GetName(p: Project, c: ClassId, getter: OuterName): Option<string>
    requires c < |p.classes|
  {
    match getter
    case OuterQualified => OuterQualifiedName(p, c)
    case OuterShort => OuterShortName(p, c)
  }

  /**
   * One level of buildInnerName's walk from class c: the segment c contributes
   * and the class the walk moves to. A member class gives its simple name and
   * moves to its containing class; any other class gives its anonymous number
   * within the nearest enclosing class and moves there.
   */
  function Step(p: Project, c: ClassId): (r: Result<(string, ClassId), Failure>)
    requires WellFormed(p) && c < |p.classes|
    ensures r.Ok? ==> r.value.1 < c
  {
    match p.classes[c].containingClass
    case Some(parent) =>
      (match p.classes[c].name
       case Some(n) => Ok((n, parent))
       case None => Err(MissingName))
    case None =>
      match p.classes[c].enclosingClass
      case None => Err(MissingEnclosingClass)
      case Some(e) =>
        match AnonymousIndex(p, e, c)
        case Err(f) => Err(f)
        case Ok(i) => Ok((NatToString(i), e))
  }

  /**
   * A finished walk: the classes visited from the start class outwards, the
   * segment each contributed, and the first class reached whose outer name is
   * defined, with that name.
   */
  datatype Walk = Walk(outer: ClassId, outerName: string, levels: seq<ClassId>, segments: seq<string>)

  /** The class the walk moves to from level k. */
  function Next(w: Walk, k: nat): ClassId
    requires k < |w.levels|
  {
    if k + 1 < |w.levels| then w.levels[k + 1] else w.outer
  }

  /**
   * w is a walk from c: it starts at c, every level steps to the next one, no
   * level after the first has an outer name, and the class it stops at has one.
   */
  predicate IsWalk(p: Project, c: ClassId, getter: OuterName, w: Walk)
    requires WellFormed(p)
  {
    && |w.levels| == |w.segments| >= 1
    && w.levels[0] == c
    && w.outer < |p.classes|
    && GetName(p, w.outer, getter) == Some(w.outerName)
    && (forall k :: 0 <= k < |w.levels| ==> StepsOn(p, w, k))
    && (forall k :: 1 <= k < |w.levels| ==> PassesOn(p, getter, w, k))
  }

  /** Level k of w contributes segment k and moves to the next level. */
  predicate StepsOn(p: Project, w: Walk, k: nat)
    requires WellFormed(p) && k < |w.levels| == |w.segments|
  {
    w.levels[k] < |p.classes| && Step(p, w.levels[k]) == Ok((w.segments[k], Next(w, k)))
  }

  /** Level k of w has no outer name, so the walk goes on past it. */
  predicate PassesOn(p: Project, getter: OuterName, w: Walk, k: nat)
    requires k < |w.levels|
  {
    w.levels[k] < |p.classes| && GetName(p, w.levels[k], getter).None?
  }

  /** The do-while loop of buildInnerName, as a function of the start class. */
  function WalkFrom(p: Project, c: ClassId, getter: OuterName): (r: Result<Walk, Failure>)
    requires WellFormed(p) && c < |p.classes|
    ensures r.Ok? ==> |r.value.levels| == |r.value.segments| >= 1 && r.value.levels[0] == c
    ensures r.Ok? ==> r.value.outer < |p.classes| && GetName(p, r.value.outer, getter) == Some(r.value.outerName)
    decreases c
  {
    match Step(p, c)
    case Err(f) => Err(f)
    case Ok((segment, parent)) =>
      match GetName(p, parent, getter)
      case Some(n) => Ok(Walk(parent, n, [c], [segment]))
      case None =>
        match WalkFrom(p, parent, getter)
        case Err(f) => Err(f)
        case Ok(w) => Ok(Walk(w.outer, w.outerName, [c] + w.levels, [segment] + w.segments))
  }

  /** WalkFrom's result is a walk from c. */
  lemma {:induction false} WalkFromIsWalk(p: Project, c: ClassId, getter: OuterName)
    requires WellFormed(p) && c < |p.classes|
    requires WalkFrom(p, c, getter).Ok?
    ensures IsWalk(p, c, getter, WalkFrom(p, c, getter).value)
    decreases c
  {
    var w' := WalkFrom(p, c, getter).value;
    var (segment, parent) := Step(p, c).value;
    if GetName(p, parent, getter).None? {
      WalkFromIsWalk(p, parent, getter);
      var w := WalkFrom(p, parent, getter).value;
      assert w' == Walk(w.outer, w.outerName, [c] + w.levels, [segment] + w.segments);
      forall k | 0 <= k < |w'.levels| ensures StepsOn(p, w', k) {
        if k > 0 {
          assert StepsOn(p, w, k - 1);
          assert w'.levels[k] == w.levels[k - 1] && w'.segments[k] == w.segments[k - 1] && Next(w', k) == Next(w, k - 1);
        }
      }
      forall k | 1 <= k < |w'.levels| ensures PassesOn(p, getter, w', k) {
        if k > 1 {
          assert PassesOn(p, getter, w, k - 1);
        }
      }
    } else {
      assert StepsOn(p, w', 0);
    }
  }

  /** A walk is determined by where it starts: IsWalk describes WalkFrom's result and nothing else. */
  lemma {:induction false} WalkIsUnique(p: Project, c: ClassId, getter: OuterName, w: Walk)
    requires WellFormed(p) && c < |p.classes|
    requires IsWalk(p, c, getter, w)
    ensures WalkFrom(p, c, getter) == Ok(w)
    decreases |w.levels|
  {
    assert StepsOn(p, w, 0);
    if |w.levels| == 1 {
      assert w.levels == [c] && w.segments == [w.segments[0]];
    } else {
      var parent := w.levels[1];
      var tail := Walk(w.outer, w.outerName, w.levels[1..], w.segments[1..]);
      forall k | 0 <= k < |tail.levels| ensures StepsOn(p, tail, k) {
        assert StepsOn(p, w, k + 1);
        assert tail.levels[k] == w.levels[k + 1] && tail.segments[k] == w.segments[k + 1] && Next(tail, k) == Next(w, k + 1);
      }
      forall k | 1 <= k < |tail.levels| ensures PassesOn(p, getter, tail, k) {
        assert PassesOn(p, getter, w, k + 1);
      }
      assert PassesOn(p, getter, w, 1);
      WalkIsUnique(p, parent, getter, tail);
      assert [c] + tail.levels == w.levels && [w.segments[0]] + tail.segments == w.segments;
    }
  }

  /** The segments appended in reverse, each after the separator: outermost first. */
  function Emit(sep: char, segments: seq<string>): string {
    if segments == [] then "" else Emit(sep, segments[1..]) + [sep] + segments[0]
  }

  /** What buildInnerName appends for class c. */
  function InnerName(p: Project, c: ClassId, getter: OuterName, sep: char): Result<string, Failure>
    requires WellFormed(p) && c < |p.classes|
  {
    match WalkFrom(p, c, getter)
    case Err(f) => Err(f)
    case Ok(w) => Ok(w.outerName + Emit(sep, w.segments))
  }

  /**
   * The built name starts with the outer name of the class the walk stopped at
   * and ends with the separator and the start class's own segment.
   */
  lemma InnerNameShape(p: Project, c: ClassId, getter: OuterName, sep: char)
    requires WellFormed(p) && c < |p.classes|
    requires InnerName(p, c, getter, sep).Ok?
    ensures Step(p, c).Ok?
    ensures var s := InnerName(p, c, getter, sep).value;
      var w := WalkFrom(p, c, getter).value;
      var own := [sep] + Step(p, c).value.0;
      && GetName(p, w.outer, getter) == Some(w.outerName)
      && |w.outerName| + |own| <= |s|
      && s[..|w.outerName|] == w.outerName
      && s[|s| - |own|..] == own
  {
    var w := WalkFrom(p, c, getter).value;
    assert Step(p, w.levels[0]) == Ok((w.segments[0], Next(w, 0)));
    var own := [sep] + w.segments[0];
    assert Emit(sep, w.segments) == Emit(sep, w.segments[1..]) + own;
  }

  lemma EmitFrom(sep: char, list: seq<string>, i: nat)
    requires i < |list|
    ensures Emit(sep, list[i..]) == Emit(sep, list[i + 1..]) + [sep] + list[i]
  {
    assert list[i..][1..] == list[i + 1..];
  }

  lemma {:induction false} EmitOne(sep: char, x: string)
    ensures Emit(sep, [x]) == [sep] + x
  {
    assert [x][1..] == [];
  }

  /**
   * The do-while loop of buildInnerName: walk outwards from c collecting one
   * segment per level, until a class with an outer name is reached.
   */
  method CollectSegments(p: Project, c: ClassId, getter: OuterName) returns (r: Result<Walk, Failure>)
    requires WellFormed(p) && c < |p.classes|
    ensures r == WalkFrom(p, c, getter)
  {
    var current: ClassId := c;
    var list: seq<string> := [];
    var levels: seq<ClassId> := [];  // the classes visited; the source keeps only their segments
    ExtendNothing(WalkFrom(p, c, getter));
    while true
      invariant current < |p.classes| && |levels| == |list|
      invariant WalkFrom(p, c, getter) == Extend(levels, list, WalkFrom(p, current, getter))
      decreases current
    {
      var parent: ClassId;
      var segment: string;
      var containing := p.classes[current].containingClass;
      if containing.Some? {
        var n := p.classes[current].name;
        if n.None? {
          return Err(MissingName);
        }
        segment, parent := n.value, containing.value;
      } else {
        var e := p.classes[current].enclosingClass;
        if e.None? {
          return Err(MissingEnclosingClass);
        }
        var index := GetAnonymousIndex(p, e.value, current);
        if index.Err? {
          return Err(index.error);
        }
        segment, parent := NatToString(index.value), e.value;
      }
      assert Step(p, current) == Ok((segment, parent));
      ExtendTwice(levels, list, [current], [segment], WalkFrom(p, parent, getter));
      list := list + [segment];
      levels := levels + [current];
      current := parent;
      var name := GetName(p, current, getter);
      if name.Some? {
        return Ok(Walk(current, name.value, levels, list));
      }
    }
  }

  /** buildInnerName: collect the segments walking outwards, then append the outer name and the segments in reverse. */
  method BuildInnerName(p: Project, c: ClassId, getter: OuterName, sep: char, builder: StringBuilder)
    returns (r: Result<(), Failure>)
    requires WellFormed(p) && c < |p.classes|
    modifies builder
    ensures r.Ok? <==> InnerName(p, c, getter, sep).Ok?
    ensures r.Ok? ==> builder.text == old(builder.text) + InnerName(p, c, getter, sep).value
    ensures r.Err? ==> r.error == InnerName(p, c, getter, sep).error && builder.text == old(builder.text)
  {
    var walk := CollectSegments(p, c, getter);
    if walk.Err? {
      return Err(walk.error);
    }
    builder.Append(walk.value.outerName);
    AppendSegments(sep, walk.value.segments, builder);
    return Ok(());
  }

  /** The reverse loop of buildInnerName: each segment after the separator, last collected first. */
  method AppendSegments(sep: char, list: seq<string>, builder: StringBuilder)
    modifies builder
    ensures builder.text == old(builder.text) + Emit(sep, list)
  {
    for i := |list| downto 0
      invariant builder.text == old(builder.text) + Emit(sep, list[i..])
    {
      EmitFrom(sep, list, i);
      builder.AppendChar(sep);
      builder.Append(list[i]);
    }
    assert list[0..] == list;
  }

  /** A walk so far, in front of the rest of the walk. */
  function Extend(levels: seq<ClassId>, segments: seq<string>, rest: Result<Walk, Failure>): Result<Walk, Failure> {
    match rest
    case Err(f) => Err(f)
    case Ok(w) => Ok(Walk(w.outer, w.outerName, levels + w.levels, segments + w.segments))
  }

  lemma ExtendNothing(rest: Result<Walk, Failure>)
    ensures Extend([], [], rest) == rest
  {
    if rest.Ok? {
      assert [] + rest.value.levels == rest.value.levels && [] + rest.value.segments == rest.value.segments;
    }
  }

  lemma ExtendTwice(l1: seq<ClassId>, s1: seq<string>, l2: seq<ClassId>, s2: seq<string>, rest: Result<Walk, Failure>)
    ensures Extend(l1, s1, Extend(l2, s2, rest)) == Extend(l1 + l2, s1 + s2, rest)
  {
    if rest.Ok? {
      assert l1 + (l2 + rest.value.levels) == l1 + l2 + rest.value.levels;
      assert s1 + (s2 + rest.value.segments) == s1 + s2 + rest.value.segments;
    }
  }

  /** buildQualifiedName: the builder walk with outerQualifiedName and '$'; returns the same builder. */
  method BuildQualifiedName(p: Project, c: ClassId, builder: StringBuilder) returns (r: Result<StringBuilder, Failure>)
    requires WellFormed(p) && c < |p.classes|
    modifies builder
    ensures r.Ok? <==> InnerName(p, c, OuterQualified, '$').Ok?
    ensures r.Ok? ==> r.value == builder && builder.text == old(builder.text) + InnerName(p, c, OuterQualified, '$').value
    ensures r.Err? ==> r.error == InnerName(p, c, OuterQualified, '$').error && builder.text == old(builder.text)
  {
    var built := BuildInnerName(p, c, OuterQualified, '$', builder);
    if built.Err? {
      return Err(built.error);
    }
    return Ok(builder);
  }

  /** What fullQualifiedName evaluates to: the outer qualified name if defined, otherwise the `$`-built name. */
  function QualifiedNameOf(p: Project, c: ClassId): Result<string, Failure>
    requires WellFormed(p) && c < |p.classes|
  {
    match OuterQualifiedName(p, c)
    case Some(q) => Ok(q)
    case None => InnerName(p, c, OuterQualified, '$')
  }

  /** What shortName evaluates to: the outer short name if defined, otherwise the `.`-built name. */
  function ShortNameOf(p: Project, c: ClassId): Result<string, Failure>
    requires WellFormed(p) && c < |p.classes|
  {
    match OuterShortName(p, c)
    case Some(n) => Ok(n)
    case None => InnerName(p, c, OuterShort, '.')
  }

  /** PsiClass.fullQualifiedName: a fresh builder is filled only when the class has no outer qualified name. */
  method FullQualifiedName(p: Project, c: ClassId) returns (r: Result<string, Failure>)
    requires WellFormed(p) && c < |p.classes|
    ensures r == QualifiedNameOf(p, c)
  {
    var outer := OuterQualifiedName(p, c);
    if outer.Some? {
      return Ok(outer.value);
    }
    var builder := new StringBuilder();
    var built := BuildQualifiedName(p, c, builder);
    if built.Err? {
      return Err(built.error);
    }
    assert QualifiedNameOf(p, c) == InnerName(p, c, OuterQualified, '$');
    assert builder.text == [] + InnerName(p, c, OuterQualified, '$').value == QualifiedNameOf(p, c).value;
    return Ok(builder.text);
  }

  /** PsiClass.shortName. */
  method ShortName(p: Project, c: ClassId) returns (r: Result<string, Failure>)
    requires WellFormed(p) && c < |p.classes|
    ensures r == ShortNameOf(p, c)
  {
    var outer := OuterShortName(p, c);
    if outer.Some? {
      return Ok(outer.value);
    }
    var builder := new StringBuilder();
    var built := BuildInnerName(p, c, OuterShort, '.', builder);
    if built.Err? {
      return Err(built.error);
    }
    assert ShortNameOf(p, c) == InnerName(p, c, OuterShort, '.');
    assert builder.text == [] + InnerName(p, c, OuterShort, '.').value == ShortNameOf(p, c).value;
    return Ok(builder.text);
  }

  /** PsiClass.appendFullQualifiedName: the builder keeps its text and gains exactly the full qualified name. */
  method AppendFullQualifiedName(p: Project, c: ClassId, builder: StringBuilder) returns (r: Result<StringBuilder, Failure>)
    requires WellFormed(p) && c < |p.classes|
    modifies builder
    ensures r.Ok? <==> QualifiedNameOf(p, c).Ok?
    ensures r.Ok? ==> r.value == builder && builder.text == old(builder.text) + QualifiedNameOf(p, c).value
    ensures r.Err? ==> r.error == QualifiedNameOf(p, c).error && builder.text == old(builder.text)
  {
    var outer := OuterQualifiedName(p, c);
    if outer.Some? {
      builder.Append(outer.value);
      return Ok(builder);
    }
    r := BuildQualifiedName(p, c, builder);
  }

  /** A class without a containing class that has a qualified name is named by it, and by nothing built. */
  lemma TopLevelFullQualifiedName(p: Project, c: ClassId)
    requires WellFormed(p) && c < |p.classes|
    requires p.classes[c].containingClass.None? && p.classes[c].qualifiedName.Some?
    ensures QualifiedNameOf(p, c) == Ok(p.classes[c].qualifiedName.value)
  {
  }

  /** A member class of a top-level class is `Outer$Inner`, and its short name `Outer.Inner`. */
  lemma MemberOfTopLevel(p: Project, c: ClassId, o: ClassId)
    requires WellFormed(p) && c < |p.classes|
    requires p.classes[c].containingClass == Some(o) && p.classes[c].name.Some?
    requires p.classes[o].containingClass.None? && p.classes[o].qualifiedName.Some? && p.classes[o].name.Some?
    ensures QualifiedNameOf(p, c) == Ok(p.classes[o].qualifiedName.value + "$" + p.classes[c].name.value)
    ensures ShortNameOf(p, c) == Ok(p.classes[o].name.value + "." + p.classes[c].name.value)
  {
    OneLevel(p, c, o, OuterQualified, '$');
    OneLevel(p, c, o, OuterShort, '.');
  }

  lemma OneLevel(p: Project, c: ClassId, o: ClassId, getter: OuterName, sep: char)
    requires WellFormed(p) && c < |p.classes|
    requires p.classes[c].containingClass == Some(o) && p.classes[c].name.Some?
    requires GetName(p, o, getter).Some?
    ensures InnerName(p, c, getter, sep) == Ok(GetName(p, o, getter).value + [sep] + p.classes[c].name.value)
  {
    var n := p.classes[c].name.value;
    var outer := GetName(p, o, getter).value;
    assert Step(p, c) == Ok((n, o));
    assert WalkFrom(p, c, getter) == Ok(Walk(o, outer, [c], [n]));
    EmitOne(sep, n);
    assert outer + ([sep] + n) == outer + [sep] + n;
  }

  /** A named member class's full name ends with `$` and its own simple name. */
  lemma FullNameEndsWithOwnName(p: Project, c: ClassId)
    requires WellFormed(p) && c < |p.classes|
    requires p.classes[c].containingClass.Some?
    requires QualifiedNameOf(p, c).Ok?
    ensures p.classes[c].name.Some?
    ensures var s := QualifiedNameOf(p, c).value;
      var own := "$" + p.classes[c].name.value;
      |own| <= |s| && s[|s| - |own|..] == own
  {
    InnerNameShape(p, c, OuterQualified, '$');
  }
}
