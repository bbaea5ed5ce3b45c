/**
 * Matching a method or field against a pattern by signature: same parameter
 * count, primitives only against the identical primitive, every parameter and
 * the return type erasure-equivalent. The name is not compared; the candidates
 * come from the host's by-name lookup.
 */
module MemberMatching {
  import opened Wrappers

  /** A Java type as far as matching cares: a primitive keyword, or anything else by its text. */
  datatype PsiType = Primitive(keyword: string) | Reference(canonicalText: string)

  datatype PsiMethod = PsiMethod(name: string, parameterTypes: seq<PsiType>, returnType: Option<PsiType>)

  datatype PsiField = PsiField(name: string, fieldType: PsiType)

  /** The host's isErasureEquivalentTo on nullable types; the model leaves it uninterpreted. */
  type ErasureEquivalence = (Option<PsiType>, Option<PsiType>) -> bool

  /** One parameter position of areReallyOnlyParametersErasureEqual. */
  predicate ParameterMatches(t1: PsiType, t2: PsiType, equivalent: ErasureEquivalence) {
    (t1.Primitive? ==> t2 == t1) && equivalent(Some(t1), Some(t2))
  }

  predicate ParametersErasureEqual(ps1: seq<PsiType>, ps2: seq<PsiType>, equivalent: ErasureEquivalence) {
    |ps1| == |ps2| && forall i :: 0 <= i < |ps1| ==> ParameterMatches(ps1[i], ps2[i], equivalent)
  }

  /** areReallyOnlyParametersErasureEqual, with the loop and early returns of the source. */
  method AreReallyOnlyParametersErasureEqual(ps1: seq<PsiType>, ps2: seq<PsiType>, equivalent: ErasureEquivalence)
    returns (b: bool)
    ensures b == ParametersErasureEqual(ps1, ps2, equivalent)
    ensures b ==> |ps1| == |ps2|
    ensures b ==> forall i :: 0 <= i < |ps1| && ps1[i].Primitive? ==> ps2[i] == ps1[i]
  {
    if |ps1| != |ps2| {
      return false;
    }
    for i := 0 to |ps1|
      invariant forall j :: 0 <= j < i ==> ParameterMatches(ps1[j], ps2[j], equivalent)
    {
      var type1 := ps1[i];
      var type2 := ps2[i];
      if type1.Primitive? && (!type2.Primitive? || type1 != type2) {
        return false;
      }
      if !equivalent(Some(type1), Some(type2)) {
        return false;
      }
    }
    return true;
  }

  /** isMatchingMethod: the parameters match and the return types are erasure-equivalent. */
  predicate IsMatchingMethod(m: PsiMethod, pattern: PsiMethod, equivalent: ErasureEquivalence) {
    ParametersErasureEqual(m.parameterTypes, pattern.parameterTypes, equivalent)
    && equivalent(m.returnType, pattern.returnType)
  }

  /** Parameter lists of different lengths never match, and a primitive parameter matches only itself. */
  lemma MatchingNeedsSameShape(m: PsiMethod, pattern: PsiMethod, equivalent: ErasureEquivalence, i: nat)
    requires IsMatchingMethod(m, pattern, equivalent)
    ensures |m.parameterTypes| == |pattern.parameterTypes|
    ensures i < |m.parameterTypes| && m.parameterTypes[i].Primitive? ==> pattern.parameterTypes[i] == m.parameterTypes[i]
    ensures i < |m.parameterTypes| ==> equivalent(Some(m.parameterTypes[i]), Some(pattern.parameterTypes[i]))
    ensures equivalent(m.returnType, pattern.returnType)
  {
    if i < |m.parameterTypes| {
      assert ParameterMatches(m.parameterTypes[i], pattern.parameterTypes[i], equivalent);
    }
  }

  /** Matching ignores the names of both methods. */
  lemma MatchingIgnoresName(m: PsiMethod, pattern: PsiMethod, equivalent: ErasureEquivalence, n1: string, n2: string)
    ensures IsMatchingMethod(m.(name := n1), pattern.(name := n2), equivalent) == IsMatchingMethod(m, pattern, equivalent)
  {
  }

  /** findMatchingMethods: the candidates that match, in their order. */
  function FindMatchingMethods(candidates: seq<PsiMethod>, pattern: PsiMethod, equivalent: ErasureEquivalence)
    : (r: seq<PsiMethod>)
    ensures forall m :: m in r <==> m in candidates && IsMatchingMethod(m, pattern, equivalent)
    ensures IsSubsequence(r, candidates)
  {
    if candidates == [] then []
    else
      var rest := FindMatchingMethods(candidates[1..], pattern, equivalent);
      if IsMatchingMethod(candidates[0], pattern, equivalent) then [candidates[0]] + rest else rest
  }

  /** Every matching candidate is kept as often as it occurs, every other one never. */
  lemma {:induction false} FindMatchingMethodsCounts(candidates: seq<PsiMethod>, pattern: PsiMethod,
                                                     equivalent: ErasureEquivalence)
    ensures var r := FindMatchingMethods(candidates, pattern, equivalent);
      forall m :: multiset(r)[m] == if IsMatchingMethod(m, pattern, equivalent) then multiset(candidates)[m] else 0
  {
    if candidates != [] {
      FindMatchingMethodsCounts(candidates[1..], pattern, equivalent);
      assert candidates == [candidates[0]] + candidates[1..];
    }
  }

  /** xs is ys with some elements left out, the others in their order. */
  predicate IsSubsequence<T(==)>(xs: seq<T>, ys: seq<T>)
    decreases |ys|
  {
    if xs == [] then true
    else if ys == [] then false
    else if xs[0] == ys[0] then IsSubsequence(xs[1..], ys[1..])
    else IsSubsequence(xs, ys[1..])
  }

  /** findMatchingMethod: the first candidate that matches (firstOrNull). */
  function FindMatchingMethod(candidates: seq<PsiMethod>, pattern: PsiMethod, equivalent: ErasureEquivalence)
    : (r: Option<PsiMethod>)
    ensures r.None? <==> forall i :: 0 <= i < |candidates| ==> !IsMatchingMethod(candidates[i], pattern, equivalent)
    ensures r.Some? ==>
      exists i :: 0 <= i < |candidates| && candidates[i] == r.value && IsMatchingMethod(candidates[i], pattern, equivalent) &&
        forall j :: 0 <= j < i ==> !IsMatchingMethod(candidates[j], pattern, equivalent)
  {
    if candidates == [] then None
    else if IsMatchingMethod(candidates[0], pattern, equivalent) then Some(candidates[0])
    else
      var r := FindMatchingMethod(candidates[1..], pattern, equivalent);
      assert forall i :: 1 <= i < |candidates| ==> candidates[i] == candidates[1..][i - 1];
      if r.Some? then
        var i :| 0 <= i < |candidates[1..]| && candidates[1..][i] == r.value
          && IsMatchingMethod(candidates[1..][i], pattern, equivalent)
          && forall j :: 0 <= j < i ==> !IsMatchingMethod(candidates[1..][j], pattern, equivalent);
        assert candidates[i + 1] == r.value && forall j :: 0 <= j < i + 1 ==> !IsMatchingMethod(candidates[j], pattern, equivalent);
        r
      else r
  }

  /** findMatchingMethod is the head of findMatchingMethods. */
  lemma {:induction false} FirstOfMatchingMethods(candidates: seq<PsiMethod>, pattern: PsiMethod, equivalent: ErasureEquivalence)
    ensures var all := FindMatchingMethods(candidates, pattern, equivalent);
      FindMatchingMethod(candidates, pattern, equivalent) == if all == [] then None else Some(all[0])
  {
    if candidates != [] && !IsMatchingMethod(candidates[0], pattern, equivalent) {
      FirstOfMatchingMethods(candidates[1..], pattern, equivalent);
    }
  }

  /** The overload taking a callback: the methods handed to it, in the order the loop calls it. */
  method FindMatchingMethodsVisit(candidates: seq<PsiMethod>, pattern: PsiMethod, equivalent: ErasureEquivalence)
    returns (visited: seq<PsiMethod>)
    ensures visited == FindMatchingMethods(candidates, pattern, equivalent)
  {
    visited := [];
    for i := 0 to |candidates|
      invariant visited == FindMatchingMethods(candidates[..i], pattern, equivalent)
    {
      FindMatchingMethodsSnoc(candidates[..i], candidates[i], pattern, equivalent);
      assert candidates[..i + 1] == candidates[..i] + [candidates[i]];
      if IsMatchingMethod(candidates[i], pattern, equivalent) {
        visited := visited + [candidates[i]];
      }
    }
    assert candidates[..|candidates|] == candidates;
  }

  /** Filtering a list with one more candidate at the end keeps that candidate at the end exactly when it matches. */
  lemma {:induction false} FindMatchingMethodsSnoc(xs: seq<PsiMethod>, x: PsiMethod, pattern: PsiMethod, equivalent: ErasureEquivalence)
    ensures FindMatchingMethods(xs + [x], pattern, equivalent) ==
      FindMatchingMethods(xs, pattern, equivalent) + (if IsMatchingMethod(x, pattern, equivalent) then [x] else [])
    decreases |xs|
  {
    if xs == [] {
      assert [] + [x] == [x] && [x][1..] == [];
    } else {
      assert (xs + [x])[0] == xs[0] && (xs + [x])[1..] == xs[1..] + [x];
      FindMatchingMethodsSnoc(xs[1..], x, pattern, equivalent);
    }
  }

  /** findMatchingField: the field the by-name lookup found, kept only when its type is erasure-equivalent. */
  function FindMatchingField(found: Option<PsiField>, pattern: PsiField, equivalent: ErasureEquivalence)
    : (r: Option<PsiField>)
    ensures r.Some? <==> found.Some? && equivalent(Some(found.value.fieldType), Some(pattern.fieldType))
    ensures r.Some? ==> r == found
  {
    match found
    case None => None
    case Some(f) => if equivalent(Some(f.fieldType), Some(pattern.fieldType)) then found else None
  }
}
