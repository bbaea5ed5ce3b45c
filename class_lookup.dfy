/**
 * Resolving a JVM binary name back to a class: the part before the first '$'
 * is a top-level lookup, and every later segment is either a 1-based
 * anonymous number or the simple name of a member class.
 */
module ClassLookup {
  import opened Wrappers
  import opened KotlinText
  import opened PsiTree
  import opened AnonymousClasses
  import opened ClassNames

  /**
   * findInnerClass as the source writes it: a numeric segment n is looked up as
   * anonymous element n - 1 when n is at most the number of anonymous
   * elements, which also lets 0 and negative numbers through to the array
   * access, where they throw.
   */
  function FindInnerClassAsWritten(p: Project, c: ClassId, name: string): (r: Result<Option<ClassId>, Failure>)
    requires WellFormed(p) && c < |p.classes|
    ensures r.Err? <==>
      ParseInt(name).Some? && ParseInt(name).value < 1 && AnonymousElementsOf(p, c).Some?
  {
    match ParseInt(name)
    case None => Ok(FindInnerClassByName(p, c, name))
    case Some(index) =>
      match AnonymousElementsOf(p, c)
      case None => Ok(None)
      case Some(els) =>
        if index <= |els| then
          if index >= 1 then Ok(Some(els[index - 1])) else Err(IndexOutOfBounds)
        else Ok(None)
  }

  /** The segment "0" behind a class with an anonymous element: the source's lookup throws. */
  lemma ZeroSegmentThrows()
    ensures var p := Project([PsiClass(Some("A"), Some("A"), None, None, [[1]]),
                              PsiClass(None, None, None, Some(0), [])]);
      && WellFormed(p)
      && FindInnerClassAsWritten(p, 0, "0") == Err(IndexOutOfBounds)
      && FindInnerClass(p, 0, "0") == None
  {
    var p := Project([PsiClass(Some("A"), Some("A"), None, None, [[1]]),
                      PsiClass(None, None, None, Some(0), [])]);
    assert ParseInt("0") == Some(0) by {
      assert AllDigits("0");
      assert "0"[..0] == [];
    }
    assert AnonymousElementsOf(p, 0) == Some([1]) by {
      FirstNonEmptyAt(p.classes[0].anonymousByProvider, 0);
    }
  }

  /**
   * findInnerClass as intended, and as the rest of this model uses it: an
   * anonymous number outside 1 .. count resolves to nothing instead of throwing.
   */
  function FindInnerClass(p: Project, c: ClassId, name: string): (r: Option<ClassId>)
    requires WellFormed(p) && c < |p.classes|
    ensures r.Some? ==> r.value < |p.classes|
  {
    match ParseInt(name)
    case None => FindInnerClassByName(p, c, name)
    case Some(index) =>
      match AnonymousElementsOf(p, c)
      case None => None
      case Some(els) =>
        assert forall k :: 0 <= k < |els| ==> els[k] < |p.classes| by {
          var k0 :| 0 <= k0 < |p.classes[c].anonymousByProvider| && p.classes[c].anonymousByProvider[k0] == els;
        }
        if 1 <= index <= |els| then Some(els[index - 1]) else None
  }

  /**
   * A numeric segment n finds anonymous element n - 1 exactly when 1 <= n <= count,
   * and nothing when the class reports no anonymous elements; any other segment
   * is a lookup by simple name.
   */
  lemma FindInnerClassMeaning(p: Project, c: ClassId, name: string)
    requires WellFormed(p) && c < |p.classes|
    ensures ParseInt(name).None? ==> FindInnerClass(p, c, name) == FindInnerClassByName(p, c, name)
    ensures ParseInt(name).Some? ==>
      var n := ParseInt(name).value;
      var els := AnonymousElementsOf(p, c);
      var r := FindInnerClass(p, c, name);
      (r.Some? <==> els.Some? && 1 <= n <= |els.value|) && (r.Some? ==> r.value == els.value[n - 1])
  {
  }

  /** The two agree everywhere except on the numbers below 1 that the source lets through. */
  lemma AsWrittenAgreesWithCorrected(p: Project, c: ClassId, name: string)
    requires WellFormed(p) && c < |p.classes|
    requires FindInnerClassAsWritten(p, c, name).Ok?
    ensures FindInnerClassAsWritten(p, c, name).value == FindInnerClass(p, c, name)
  {
  }

  /** Resolve the segments after the first one, left to right, stopping at the first that fails. */
  function ResolveSegments(p: Project, c: ClassId, segments: seq<string>): (r: Option<ClassId>)
    requires WellFormed(p) && c < |p.classes|
    ensures r.Some? ==> r.value < |p.classes|
    decreases |segments|
  {
    if segments == [] then Some(c)
    else
      match FindInnerClass(p, c, segments[0])
      case None => None
      case Some(d) => ResolveSegments(p, d, segments[1..])
  }

  /** What findQualifiedClass computes: a top-level lookup of the first '$'-piece, then the rest in order. */
  function Resolve(p: Project, s: string): (r: Option<ClassId>)
    requires WellFormed(p)
    ensures r.Some? ==> r.value < |p.classes|
  {
    var parts := Split(s, '$');
    match FindClass(p, parts[0])
    case None => None
    case Some(c) => ResolveSegments(p, c, parts[1..])
  }

  /** The first indexOf of findQualifiedClass finds no '$': the whole name is one top-level lookup. */
  lemma ResolveWhole(p: Project, s: string)
    requires WellFormed(p)
    requires IndexOf(s, '$', 0) == -1
    ensures Resolve(p, s) == FindClass(p, s)
  {
    SplitAtIndexOf(s, '$', 0);
    assert s[0..] == s;
  }

  /** The first indexOf of findQualifiedClass finds a '$' at k: the piece before it is the top-level lookup. */
  lemma ResolveFirstPiece(p: Project, s: string, k: int)
    requires WellFormed(p)
    requires k == IndexOf(s, '$', 0) && k != -1
    ensures Resolve(p, s) ==
      match FindClass(p, s[..k])
      case None => None
      case Some(c) => ResolveSegments(p, c, Split(s[k + 1..], '$'))
  {
    SplitAtIndexOf(s, '$', 0);
    assert s[0..] == s;
    var parts := Split(s, '$');
    assert parts[0] == s[..k] && parts[1..] == Split(s[k + 1..], '$');
  }

  /** The last turn of the loop of findQualifiedClass: no '$' is left, the rest is one segment. */
  lemma ResolveLastPiece(p: Project, c: ClassId, s: string, from: nat)
    requires WellFormed(p) && c < |p.classes| && from <= |s|
    requires IndexOf(s, '$', from) == -1
    ensures ResolveSegments(p, c, Split(s[from..], '$')) == FindInnerClass(p, c, s[from..])
  {
    SplitAtIndexOf(s, '$', from);
    var parts := Split(s[from..], '$');
    assert parts[1..] == [];
  }

  /** A middle turn of the loop of findQualifiedClass: the piece up to the next '$' at k is one segment. */
  lemma ResolveNextPiece(p: Project, c: ClassId, s: string, from: nat, k: int)
    requires WellFormed(p) && c < |p.classes| && from <= |s|
    requires k == IndexOf(s, '$', from) && k != -1
    ensures FindInnerClass(p, c, s[from..k]).None? ==> ResolveSegments(p, c, Split(s[from..], '$')) == None
    ensures FindInnerClass(p, c, s[from..k]).Some? ==>
      ResolveSegments(p, c, Split(s[from..], '$')) ==
      ResolveSegments(p, FindInnerClass(p, c, s[from..k]).value, Split(s[k + 1..], '$'))
  {
    SplitAtIndexOf(s, '$', from);
    var parts := Split(s[from..], '$');
    assert parts[0] == s[from..k] && parts[1..] == Split(s[k + 1..], '$');
  }

  /** findQualifiedClass, with the source's indexOf loop. */
  method FindQualifiedClass(p: Project, s: string) returns (r: Option<ClassId>)
    requires WellFormed(p)
    ensures r == Resolve(p, s)
  {
    var innerPos := IndexOf(s, '$', 0);
    if innerPos == -1 {
      ResolveWhole(p, s);
      return FindClass(p, s);
    }
    ResolveFirstPiece(p, s, innerPos);
    var found := FindClass(p, s[..innerPos]);
    if found.None? {
      return None;
    }
    var currentClass: ClassId := found.value;
    while true
      invariant 0 <= innerPos < |s|
      invariant currentClass < |p.classes|
      invariant Resolve(p, s) == ResolveSegments(p, currentClass, Split(s[innerPos + 1..], '$'))
      decreases |s| - innerPos
    {
      var outerPos := innerPos + 1;
      innerPos := IndexOf(s, '$', outerPos);
      if innerPos == -1 {
        ResolveLastPiece(p, currentClass, s, outerPos);
        return FindInnerClass(p, currentClass, s[outerPos..]);
      }
      ResolveNextPiece(p, currentClass, s, outerPos, innerPos);
      var next := FindInnerClass(p, currentClass, s[outerPos..innerPos]);
      if next.None? {
        return None;
      }
      currentClass := next.value;
    }
  }

  /** With no '$' in the name, findQualifiedClass is a single top-level lookup of the whole name. */
  lemma ResolveWithoutDollar(p: Project, s: string)
    requires WellFormed(p)
    requires '$' !in s
    ensures Resolve(p, s) == FindClass(p, s)
  {
    SplitWithoutSeparator(s, '$');
  }

  /** Once a segment fails to resolve, nothing after it is looked at: the result is null. */
  lemma {:induction false} ResolveStopsAtFailure(p: Project, c: ClassId, xs: seq<string>, ys: seq<string>)
    requires WellFormed(p) && c < |p.classes|
    requires ResolveSegments(p, c, xs) == None
    ensures ResolveSegments(p, c, xs + ys) == None
    decreases |xs|
  {
    assert xs != [];
    assert (xs + ys)[0] == xs[0] && (xs + ys)[1..] == xs[1..] + ys;
    match FindInnerClass(p, c, xs[0])
    case None =>
    case Some(d) => ResolveStopsAtFailure(p, d, xs[1..], ys);
  }

  /** Resolving one more segment continues from where the others ended. */
  lemma {:induction false} ResolveSnoc(p: Project, c: ClassId, xs: seq<string>, x: string)
    requires WellFormed(p) && c < |p.classes|
    ensures ResolveSegments(p, c, xs + [x]) ==
      match ResolveSegments(p, c, xs)
      case None => None
      case Some(d) => FindInnerClass(p, d, x)
    decreases |xs|
  {
    if xs == [] {
      assert [x][1..] == [];
    } else {
      assert (xs + [x])[0] == xs[0] && (xs + [x])[1..] == xs[1..] + [x];
      match FindInnerClass(p, c, xs[0])
      case None =>
      case Some(d) => ResolveSnoc(p, d, xs[1..], x);
    }
  }

  /**
   * What makes a `$`-name unambiguous: no class name contains '$' or reads as
   * an Int, qualified names are unique and '$'-free, member classes of one
   * class have distinct names, and every anonymous number fits an Int.
   */
  predicate Unambiguous(p: Project) {
    SimpleNamesAreSegments(p) && QualifiedNamesArePlain(p) && QualifiedNamesAreDistinct(p)
    && MemberNamesAreDistinct(p) && AnonymousCountsFit(p)
  }

  predicate SimpleNamesAreSegments(p: Project) {
    forall i :: 0 <= i < |p.classes| && p.classes[i].name.Some? ==>
      '$' !in p.classes[i].name.value && ParseInt(p.classes[i].name.value).None?
  }

  predicate QualifiedNamesArePlain(p: Project) {
    forall i :: 0 <= i < |p.classes| && p.classes[i].qualifiedName.Some? ==> '$' !in p.classes[i].qualifiedName.value
  }

  predicate QualifiedNamesAreDistinct(p: Project) {
    forall i, j :: 0 <= i < j < |p.classes| && p.classes[i].qualifiedName.Some? ==>
      p.classes[i].qualifiedName != p.classes[j].qualifiedName
  }

  predicate MemberNamesAreDistinct(p: Project) {
    forall i, j :: 0 <= i < j < |p.classes| && p.classes[i].containingClass.Some? && p.classes[i].name.Some? ==>
      !(p.classes[i].containingClass == p.classes[j].containingClass && p.classes[i].name == p.classes[j].name)
  }

  predicate AnonymousCountsFit(p: Project) {
    forall i, r :: 0 <= i < |p.classes| && 0 <= r < |p.classes[i].anonymousByProvider| ==>
      |p.classes[i].anonymousByProvider[r]| <= INT_MAX
  }

  /** The segment a class contributes is the one that finds it again from the class the walk moves to. */
  lemma StepResolves(p: Project, c: ClassId)
    requires WellFormed(p) && Unambiguous(p) && c < |p.classes|
    requires Step(p, c).Ok?
    ensures '$' !in Step(p, c).value.0
    ensures FindInnerClass(p, Step(p, c).value.1, Step(p, c).value.0) == Some(c)
  {
    var (segment, parent) := Step(p, c).value;
    if p.classes[c].containingClass.Some? {
      var r := FindInnerClassByName(p, parent, segment);
      assert IsMemberNamed(p, c, parent, segment);
    } else {
      var i := AnonymousIndex(p, parent, c).value;
      var els := AnonymousElementsOf(p, parent).value;
      var k :| 0 <= k < |p.classes[parent].anonymousByProvider| && p.classes[parent].anonymousByProvider[k] == els;
      assert i <= INT_MAX;
      ParseNatToString(i);
      assert forall j :: 0 <= j < |segment| ==> IsDigit(segment[j]);
    }
  }

  /** Resolving a walk's segments, outermost first, from the class it stopped at gives back its start class. */
  lemma {:induction false} WalkResolves(p: Project, c: ClassId)
    requires WellFormed(p) && Unambiguous(p) && c < |p.classes|
    requires WalkFrom(p, c, OuterQualified).Ok?
    ensures var w := WalkFrom(p, c, OuterQualified).value;
      && (forall k :: 0 <= k < |w.segments| ==> '$' !in w.segments[k])
      && ResolveSegments(p, w.outer, Reverse(w.segments)) == Some(c)
    decreases c
  {
    var w := WalkFrom(p, c, OuterQualified).value;
    var (segment, parent) := Step(p, c).value;
    StepResolves(p, c);
    if GetName(p, parent, OuterQualified).Some? {
      assert w.segments == [segment];
      assert Reverse(w.segments) == [segment];
      assert [segment][1..] == [];
    } else {
      WalkResolves(p, parent);
      var tail := WalkFrom(p, parent, OuterQualified).value;
      assert w.segments == [segment] + tail.segments;
      assert w.segments[1..] == tail.segments;
      assert Reverse(w.segments) == Reverse(tail.segments) + [segment];
      ResolveSnoc(p, w.outer, Reverse(tail.segments), segment);
    }
  }

  function Reverse(xs: seq<string>): (r: seq<string>)
    ensures |r| == |xs|
    ensures forall k :: 0 <= k < |xs| ==> r[k] == xs[|xs| - 1 - k]
  {
    if xs == [] then [] else Reverse(xs[1..]) + [xs[0]]
  }

  /** Splitting an emitted name gives the outer name and the segments, outermost first. */
  lemma {:induction false} SplitEmitted(outer: string, segments: seq<string>)
    requires '$' !in outer
    requires forall k :: 0 <= k < |segments| ==> '$' !in segments[k]
    ensures Split(outer + Emit('$', segments), '$') == [outer] + Reverse(segments)
    decreases |segments|
  {
    if segments == [] {
      assert outer + "" == outer;
      SplitWithoutSeparator(outer, '$');
    } else {
      SplitEmitted(outer, segments[1..]);
      var rest := outer + Emit('$', segments[1..]);
      assert outer + Emit('$', segments) == rest + ['$'] + segments[0];
      SplitAppend(rest, '$', segments[0]);
    }
  }

  /**
   * The round trip: under Unambiguous, findQualifiedClass of a class's
   * fullQualifiedName is that class, for top-level, member and anonymous
   * classes alike.
   */
  lemma FullQualifiedNameRoundTrip(p: Project, c: ClassId)
    requires WellFormed(p) && Unambiguous(p) && c < |p.classes|
    requires QualifiedNameOf(p, c).Ok?
    ensures Resolve(p, QualifiedNameOf(p, c).value) == Some(c)
  {
    match OuterQualifiedName(p, c)
    case Some(q) =>
      ResolveWithoutDollar(p, q);
    case None =>
      InnerNameRoundTrip(p, c);
  }

  /** The builder half of the round trip: the walk's outer name, then its segments, outermost first. */
  lemma InnerNameRoundTrip(p: Project, c: ClassId)
    requires WellFormed(p) && Unambiguous(p) && c < |p.classes|
    requires WalkFrom(p, c, OuterQualified).Ok?
    ensures Resolve(p, InnerName(p, c, OuterQualified, '$').value) == Some(c)
  {
    var w := WalkFrom(p, c, OuterQualified).value;
    var name := w.outerName + Emit('$', w.segments);
    assert InnerName(p, c, OuterQualified, '$').value == name;
    WalkResolves(p, c);
    OuterNameFound(p, w.outer, w.outerName);
    SplitEmitted(w.outerName, w.segments);
    var parts := Split(name, '$');
    assert parts[0] == w.outerName && parts[1..] == Reverse(w.segments);
  }

  /** A top-level class is what findClass returns for its qualified name, which holds no '$'. */
  lemma OuterNameFound(p: Project, c: ClassId, q: string)
    requires WellFormed(p) && Unambiguous(p) && c < |p.classes|
    requires GetName(p, c, OuterQualified) == Some(q)
    ensures '$' !in q
    ensures FindClass(p, q) == Some(c)
  {
    assert p.classes[c].qualifiedName == Some(q);
  }

  /** An anonymous class inside member class Inner of com.example.Outer. */
  function ExampleProject(): Project {
    Project([
      PsiClass(Some("Outer"), Some("com.example.Outer"), None, None, []),
      PsiClass(Some("Inner"), Some("com.example.Outer.Inner"), Some(0), Some(0), [[], [2]]),
      PsiClass(None, None, None, Some(1), [])])
  }

  lemma ExampleSteps()
    ensures WellFormed(ExampleProject())
    ensures Step(ExampleProject(), 2) == Ok(("1", 1))
    ensures Step(ExampleProject(), 1) == Ok(("Inner", 0))
  {
    var p := ExampleProject();
    FirstNonEmptyAt(p.classes[1].anonymousByProvider, 1);
    assert AnonymousIndex(p, 1, 2) == Ok(1);
    assert NatToString(1) == "1";
  }

  lemma ExampleWalk(getter: OuterName)
    ensures WellFormed(ExampleProject())
    ensures var outer := if getter == OuterQualified then "com.example.Outer" else "Outer";
      WalkFrom(ExampleProject(), 2, getter) == Ok(Walk(0, outer, [2, 1], ["1", "Inner"]))
  {
    var p := ExampleProject();
    ExampleSteps();
    assert GetName(p, 1, getter).None?;
    assert [2] + [1] == [2, 1] && ["1"] + ["Inner"] == ["1", "Inner"];
  }

  lemma ExampleEmit(sep: char)
    ensures Emit(sep, ["1", "Inner"]) == [sep] + "Inner" + [sep] + "1"
  {
    assert ["1", "Inner"][1..] == ["Inner"];
    EmitOne(sep, "Inner");
  }

  /** Its binary name is `com.example.Outer$Inner$1` and its short name `Outer.Inner.1`. */
  lemma ExampleNames()
    ensures WellFormed(ExampleProject())
    ensures QualifiedNameOf(ExampleProject(), 2) == Ok("com.example.Outer$Inner$1")
    ensures ShortNameOf(ExampleProject(), 2) == Ok("Outer.Inner.1")
  {
    var p := ExampleProject();
    ExampleWalk(OuterQualified);
    ExampleWalk(OuterShort);
    ExampleEmit('$');
    ExampleEmit('.');
    assert OuterQualifiedName(p, 2).None? && OuterShortName(p, 2).None?;
    assert QualifiedNameOf(p, 2) == Ok("com.example.Outer" + (['$'] + "Inner" + ['$'] + "1"));
    assert ShortNameOf(p, 2) == Ok("Outer" + (['.'] + "Inner" + ['.'] + "1"));
    assert "com.example.Outer" + (['$'] + "Inner" + ['$'] + "1") == "com.example.Outer$Inner$1";
    assert "Outer" + (['.'] + "Inner" + ['.'] + "1") == "Outer.Inner.1";
  }

  lemma ExampleSimpleNames()
    ensures SimpleNamesAreSegments(ExampleProject())
  {
    IdentifierIsNotNumeric("Outer");
    IdentifierIsNotNumeric("Inner");
    assert '$' !in "Outer" && '$' !in "Inner";
  }

  lemma ExampleQualifiedNames()
    ensures QualifiedNamesArePlain(ExampleProject()) && QualifiedNamesAreDistinct(ExampleProject())
  {
    assert '$' !in "com.example.Outer" && '$' !in "com.example.Outer.Inner";
    assert |"com.example.Outer"| != |"com.example.Outer.Inner"|;
  }

  lemma ExampleUnambiguous()
    ensures Unambiguous(ExampleProject())
  {
    ExampleSimpleNames();
    ExampleQualifiedNames();
  }

  /** The binary name resolves back to the anonymous class. */
  lemma ExampleResolves()
    ensures WellFormed(ExampleProject())
    ensures Resolve(ExampleProject(), "com.example.Outer$Inner$1") == Some(2)
  {
    ExampleNames();
    ExampleUnambiguous();
    FullQualifiedNameRoundTrip(ExampleProject(), 2);
  }
}
