/**
 * Classifying the type text of an access-transformer entry as a JVM field
 * descriptor (The Java Virtual Machine Specification, section 4.3.2): array
 * brackets are ignored, `L...;` names a class, and one base-type letter names
 * a primitive, which is looked up as its wrapper class.
 */
module AtMixinUtil {
  import opened Wrappers
  import opened PsiTree
  import opened ClassLookup

  /** What the text asks to be looked up. */
  datatype ClassReference =
    | ClassDescriptor(qualifiedName: string)  // findQualifiedClass of parseClassDescriptor's result
    | PrimitiveWrapper(baseType: char)         // getPrimitiveWrapperClass of the base-type letter

  const BASE_TYPES: string := "BCDFIJSZ"

  /** The text with every '[' removed (the regex replace of "\\[" by ""). */
  function StripArrays(s: string): (r: string)
    ensures '[' !in r
  {
    if s == [] then []
    else if s[0] == '[' then StripArrays(s[1..])
    else [s[0]] + StripArrays(s[1..])
  }

  /** Exactly the brackets go: every other character is kept as often as it occurs. */
  lemma {:induction false} StripArraysKeepsTheRest(s: string)
    ensures multiset(StripArrays(s)) == multiset(s)['[' := 0]
  {
    if s != [] {
      assert s == [s[0]] + s[1..];
      StripArraysKeepsTheRest(s[1..]);
    }
  }

  /** Stripping leaves a bracket-free text alone, so stripping twice is stripping once. */
  lemma {:induction false} StripArraysIdempotent(s: string)
    ensures StripArrays(StripArrays(s)) == StripArrays(s)
  {
    StripArraysNoBrackets(StripArrays(s));
  }

  lemma {:induction false} StripArraysNoBrackets(s: string)
    requires '[' !in s
    ensures StripArrays(s) == s
  {
    if s != [] {
      assert s == [s[0]] + s[1..];
      StripArraysNoBrackets(s[1..]);
    }
  }

  /** Stripping works piece by piece, so a bracket anywhere, not only in front, is dropped. */
  lemma {:induction false} StripArraysAppend(a: string, b: string)
    ensures StripArrays(a + b) == StripArrays(a) + StripArrays(b)
  {
    if a != [] {
      assert (a + b)[0] == a[0] && (a + b)[1..] == a[1..] + b;
      StripArraysAppend(a[1..], b);
    } else {
      assert a + b == b;
    }
  }

  /**
   * getClassFromString without the lookups: null text gives null; stripped
   * text starting with 'L' is a class descriptor; otherwise it must be exactly
   * one base-type letter.
   */
  function Classify(text: Option<string>, parseClassDescriptor: string -> string): (r: Option<ClassReference>)
    ensures text.None? ==> r.None?
    ensures r.Some? && r.value.PrimitiveWrapper? <==>
      text.Some? && |StripArrays(text.value)| == 1 && StripArrays(text.value)[0] in BASE_TYPES
    ensures r.Some? && r.value.PrimitiveWrapper? ==> StripArrays(text.value) == [r.value.baseType]
    ensures r.Some? && r.value.ClassDescriptor? <==>
      text.Some? && |StripArrays(text.value)| >= 1 && StripArrays(text.value)[0] == 'L'
    ensures r.Some? && r.value.ClassDescriptor? ==>
      r.value.qualifiedName == parseClassDescriptor(StripArrays(text.value))
  {
    match text
    case None => None
    case Some(t) =>
      var stripped := StripArrays(t);
      if |stripped| >= 1 && stripped[0] == 'L' then Some(ClassDescriptor(parseClassDescriptor(stripped)))
      else if |stripped| != 1 || stripped[0] !in BASE_TYPES then None
      else Some(PrimitiveWrapper(stripped[0]))
  }

  /** Classification looks at the text only after stripping. */
  lemma ClassifyAfterStripping(x: string, y: string, parseClassDescriptor: string -> string)
    requires StripArrays(x) == StripArrays(y)
    ensures Classify(Some(x), parseClassDescriptor) == Classify(Some(y), parseClassDescriptor)
  {
  }

  /** A bracket anywhere in the text is dropped. */
  lemma StripArraysDropsBracket(a: string, b: string)
    ensures StripArrays(a + "[" + b) == StripArrays(a + b)
  {
    assert StripArrays("[") == [] by {
      assert "["[1..] == [];
    }
    StripArraysAppend(a + "[", b);
    StripArraysAppend(a, "[");
    StripArraysAppend(a, b);
  }

  /** Array dimensions never change the classification: `[[I` is `I`, and `[` may stand anywhere. */
  lemma ClassifyIgnoresBrackets(a: string, b: string, parseClassDescriptor: string -> string)
    ensures Classify(Some(a + "[" + b), parseClassDescriptor) == Classify(Some(a + b), parseClassDescriptor)
    ensures Classify(Some(StripArrays(a)), parseClassDescriptor) == Classify(Some(a), parseClassDescriptor)
  {
    StripArraysDropsBracket(a, b);
    ClassifyAfterStripping(a + "[" + b, a + b, parseClassDescriptor);
    StripArraysIdempotent(a);
    ClassifyAfterStripping(StripArrays(a), a, parseClassDescriptor);
  }

  /** `V`, the empty text, bare brackets and two letters are no descriptor the function accepts. */
  lemma ClassifyRejects(parseClassDescriptor: string -> string)
    ensures Classify(Some("V"), parseClassDescriptor) == None
    ensures Classify(Some(""), parseClassDescriptor) == None
    ensures Classify(Some("[["), parseClassDescriptor) == None
    ensures Classify(Some("II"), parseClassDescriptor) == None
  {
    StripArraysNoBrackets("V");
    StripArraysNoBrackets("II");
    assert StripArrays("[[") == [] by {
      assert "[["[1..] == "[";
      assert "["[1..] == [];
    }
  }

  /** An array of int is looked up as the wrapper of I; an array of String as the class descriptor. */
  lemma ClassifyAccepts(parseClassDescriptor: string -> string)
    ensures Classify(Some("[[I"), parseClassDescriptor) == Some(PrimitiveWrapper('I'))
    ensures Classify(Some("[Ljava/lang/String;"), parseClassDescriptor) ==
      Some(ClassDescriptor(parseClassDescriptor("Ljava/lang/String;")))
  {
    assert StripArrays("[[I") == "I" by {
      assert "[[I"[1..] == "[I";
      assert "[I"[1..] == "I";
      StripArraysNoBrackets("I");
    }
    assert StripArrays("[Ljava/lang/String;") == "Ljava/lang/String;" by {
      assert "[Ljava/lang/String;"[1..] == "Ljava/lang/String;";
      StripArraysNoBrackets("Ljava/lang/String;");
    }
  }

  /**
   * getClassFromString: a descriptor goes to findQualifiedClass (its
   * resolution as modelled here), a base type to the host's wrapper lookup.
   */
  function GetClassFromString(p: Project, text: Option<string>, parseClassDescriptor: string -> string,
                              primitiveWrapperClass: char -> Option<ClassId>): (r: Option<ClassId>)
    requires WellFormed(p)
    ensures text.None? ==> r.None?
    ensures r.Some? ==> text.Some? && |StripArrays(text.value)| >= 1
    ensures text.Some? && |StripArrays(text.value)| >= 1 && StripArrays(text.value)[0] == 'L' ==>
      r == Resolve(p, parseClassDescriptor(StripArrays(text.value)))
    ensures text.Some? && |StripArrays(text.value)| == 1 && StripArrays(text.value)[0] in BASE_TYPES ==>
      r == primitiveWrapperClass(StripArrays(text.value)[0])
    ensures var s := if text.Some? then StripArrays(text.value) else "";
      text.Some? && !(|s| >= 1 && s[0] == 'L') && !(|s| == 1 && s[0] in BASE_TYPES) ==> r.None?
  {
    match Classify(text, parseClassDescriptor)
    case None => None
    case Some(ClassDescriptor(name)) => Resolve(p, name)
    case Some(PrimitiveWrapper(ch)) => primitiveWrapperClass(ch)
  }
}
