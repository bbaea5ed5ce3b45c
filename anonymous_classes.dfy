/**
 * Anonymous classes: the list the registered providers report for an element,
 * and an anonymous class's 1-based position in that list (the number the JVM
 * binary name gives it).
 */
module AnonymousClasses {
  import opened Wrappers
  import opened PsiTree

  /** The first provider result that is not empty, or null when every provider reports nothing. */
  function FirstNonEmpty(results: seq<seq<ClassId>>): (r: Option<seq<ClassId>>)
    ensures r.None? <==> forall i :: 0 <= i < |results| ==> results[i] == []
    ensures r.Some? ==> r.value != []
    ensures r.Some? ==> exists i :: 0 <= i < |results| && results[i] == r.value && forall j :: 0 <= j < i ==> results[j] == []
  {
    if results == [] then None
    else if results[0] != [] then Some(results[0])
    else
      var r := FirstNonEmpty(results[1..]);
      assert forall i :: 1 <= i < |results| ==> results[i] == results[1..][i - 1];
      if r.Some? then
        var i :| 0 <= i < |results[1..]| && results[1..][i] == r.value && forall j :: 0 <= j < i ==> results[1..][j] == [];
        assert results[i + 1] == r.value && forall j :: 0 <= j < i + 1 ==> results[j] == [];
        r
      else r
  }

  /** The anonymous elements the providers report for class e. */
  function AnonymousElementsOf(p: Project, e: ClassId): Option<seq<ClassId>>
    requires e < |p.classes|
  {
    FirstNonEmpty(p.classes[e].anonymousByProvider)
  }

  /** PsiElement.anonymousElements: ask each provider in turn, stop at the first non-empty answer. */
  method AnonymousElements(p: Project, e: ClassId) returns (r: Option<seq<ClassId>>)
    requires e < |p.classes|
    ensures r == AnonymousElementsOf(p, e)
  {
    var results := p.classes[e].anonymousByProvider;
    for i := 0 to |results|
      invariant forall j :: 0 <= j < i ==> results[j] == []
    {
      if results[i] != [] {
        FirstNonEmptyAt(results, i);
        return Some(results[i]);
      }
    }
    return None;
  }

  lemma FirstNonEmptyAt(results: seq<seq<ClassId>>, i: nat)
    requires i < |results| && results[i] != []
    requires forall j :: 0 <= j < i ==> results[j] == []
    ensures FirstNonEmpty(results) == Some(results[i])
  {
    var r := FirstNonEmpty(results);
    var k :| 0 <= k < |results| && results[k] == r.value && forall j :: 0 <= j < k ==> results[j] == [];
    assert !(k < i) && !(i < k);
  }

  /** The position of the first occurrence of x in els. */
  function Position(els: seq<ClassId>, x: ClassId): (r: Option<nat>)
    ensures r.None? <==> x !in els
    ensures r.Some? ==> r.value < |els| && els[r.value] == x && forall j :: 0 <= j < r.value ==> els[j] != x
  {
    if els == [] then None
    else if els[0] == x then Some(0)
    else
      var r := Position(els[1..], x);
      assert forall j :: 1 <= j < |els| ==> els[j] == els[1..][j - 1];
      if r.Some? then Some(r.value + 1) else None
  }

  /**
   * getAnonymousIndex on class e: one more than the position of the first
   * anonymous element of e that is c; fails when e reports no anonymous
   * elements or c is not among them.
   */
  function AnonymousIndex(p: Project, e: ClassId, c: ClassId): (r: Result<nat, Failure>)
    requires e < |p.classes|
    ensures AnonymousElementsOf(p, e).None? ==> r == Err(NoAnonymousElements)
    ensures AnonymousElementsOf(p, e).Some? && c !in AnonymousElementsOf(p, e).value ==> r == Err(NotAnAnonymousElement)
    ensures AnonymousElementsOf(p, e).Some? && c in AnonymousElementsOf(p, e).value ==> r.Ok?
    ensures r.Ok? ==>
      var els := AnonymousElementsOf(p, e).value;
      1 <= r.value <= |els| && els[r.value - 1] == c && forall j :: 0 <= j < r.value - 1 ==> els[j] != c
  {
    match AnonymousElementsOf(p, e)
    case None => Err(NoAnonymousElements)
    case Some(els) =>
      match Position(els, c)
      case None => Err(NotAnAnonymousElement)
      case Some(i) => Ok(i + 1)
  }

  /** PsiElement.getAnonymousIndex, the loop with its early return. */
  method GetAnonymousIndex(p: Project, e: ClassId, c: ClassId) returns (r: Result<nat, Failure>)
    requires e < |p.classes|
    ensures r == AnonymousIndex(p, e, c)
  {
    var elements := AnonymousElements(p, e);
    if elements.None? {
      return Err(NoAnonymousElements);
    }
    var els := elements.value;
    for i := 0 to |els|
      invariant forall j :: 0 <= j < i ==> els[j] != c
    {
      if els[i] == c {
        return Ok(i + 1);
      }
    }
    return Err(NotAnAnonymousElement);
  }
}
