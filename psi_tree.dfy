/**
 * The host IDE's program-structure tree, as far as the class-name code reads it.
 * The host keeps it; the code only asks it questions. Classes are numbered so
 * that every class comes after the classes around it.
 */
module PsiTree {
  import opened Wrappers

  /** A class's position in the project's list of classes. */
  type ClassId = nat

  /** One class, with the answers the host gives about it. */
  datatype PsiClass = PsiClass(
    name: Option<string>,                    // getName(): null for an anonymous class
    qualifiedName: Option<string>,           // getQualifiedName(): null for anonymous and local classes
    containingClass: Option<ClassId>,        // getContainingClass(): null unless this is a member class
    enclosingClass: Option<ClassId>,         // parent.findContainingClass(): the nearest class around the parent element
    anonymousByProvider: seq<seq<ClassId>>   // what each registered AnonymousElementProvider reports for this class, in registry order
  )

  datatype Project = Project(classes: seq<PsiClass>)

  /** Every link names an earlier class, so walking outwards always ends. */
  predicate WellFormed(p: Project) {
    forall i :: 0 <= i < |p.classes| ==>
      && (p.classes[i].containingClass.Some? ==> p.classes[i].containingClass.value < i)
      && (p.classes[i].enclosingClass.Some? ==> p.classes[i].enclosingClass.value < i)
      && (forall r, j :: 0 <= r < |p.classes[i].anonymousByProvider| && 0 <= j < |p.classes[i].anonymousByProvider[r]| ==>
            p.classes[i].anonymousByProvider[r][j] < |p.classes|)
  }

  /** The errors the code raises: Kotlin's `!!`, an explicit throw, and an array index. */
  datatype Failure =
    | MissingName            // currentClass.name!! on a member class without a name
    | MissingEnclosingClass  // parent.findContainingClass()!! with no class around
    | NoAnonymousElements    // anonymousElements!! when no provider reports any
    | NotAnAnonymousElement  // IllegalStateException: the class is not among them
    | IndexOutOfBounds       // anonymousElements[anonymousIndex - 1] with an index below 1

  /** JavaPsiFacade.findClass over the whole project: the first class with this qualified name. */
  function FindClass(p: Project, q: string): (r: Option<ClassId>)
    ensures r.Some? ==> r.value < |p.classes| && p.classes[r.value].qualifiedName == Some(q)
    ensures r.Some? ==> forall j :: 0 <= j < r.value ==> p.classes[j].qualifiedName != Some(q)
    ensures r.None? ==> forall j :: 0 <= j < |p.classes| ==> p.classes[j].qualifiedName != Some(q)
  {
    FindClassFrom(p, q, 0)
  }

  function FindClassFrom(p: Project, q: string, from: nat): (r: Option<ClassId>)
    requires from <= |p.classes|
    ensures r.Some? ==> from <= r.value < |p.classes| && p.classes[r.value].qualifiedName == Some(q)
    ensures r.Some? ==> forall j :: from <= j < r.value ==> p.classes[j].qualifiedName != Some(q)
    ensures r.None? ==> forall j :: from <= j < |p.classes| ==> p.classes[j].qualifiedName != Some(q)
    decreases |p.classes| - from
  {
    if from == |p.classes| then None
    else if p.classes[from].qualifiedName == Some(q) then Some(from)
    else FindClassFrom(p, q, from + 1)
  }

  /** PsiClass.findInnerClassByName(n, false): the first member class of c named n. */
  function FindInnerClassByName(p: Project, c: ClassId, n: string): (r: Option<ClassId>)
    ensures r.Some? ==> r.value < |p.classes| && IsMemberNamed(p, r.value, c, n)
    ensures r.Some? ==> forall j :: 0 <= j < r.value ==> !IsMemberNamed(p, j, c, n)
    ensures r.None? ==> forall j :: 0 <= j < |p.classes| ==> !IsMemberNamed(p, j, c, n)
  {
    FindInnerClassByNameFrom(p, c, n, 0)
  }

  predicate IsMemberNamed(p: Project, j: ClassId, c: ClassId, n: string)
    requires j < |p.classes|
  {
    p.classes[j].containingClass == Some(c) && p.classes[j].name == Some(n)
  }

  function FindInnerClassByNameFrom(p: Project, c: ClassId, n: string, from: nat): (r: Option<ClassId>)
    requires from <= |p.classes|
    ensures r.Some? ==> from <= r.value < |p.classes| && IsMemberNamed(p, r.value, c, n)
    ensures r.Some? ==> forall j :: from <= j < r.value ==> !IsMemberNamed(p, j, c, n)
    ensures r.None? ==> forall j :: from <= j < |p.classes| ==> !IsMemberNamed(p, j, c, n)
    decreases |p.classes| - from
  {
    if from == |p.classes| then None
    else if IsMemberNamed(p, from, c, n) then Some(from)
    else FindInnerClassByNameFrom(p, c, n, from + 1)
  }
}
