/**
 * The CSS class the code views give a language name for syntax
 * highlighting. The code display and the code editor carry the same
 * lookup: the lower-cased name is looked up in a table of ten languages
 * and anything else falls back to "language-text".
 */
module LanguageClass {

  /** `toLowerCase` on ASCII letters; other characters are kept. */
  function LowerChar(c: char): (r: char)
    ensures 'A' <= c <= 'Z' ==> r as int == c as int + 32
    ensures !('A' <= c <= 'Z') ==> r == c
    ensures !('A' <= r <= 'Z')
  {
    if 'A' <= c <= 'Z' then (c as int + 32) as char else c
  }

  /** `toLowerCase`: no upper-case ASCII letter remains, each upper-case
      letter becomes its lower-case form and every other character stays. */
  function Lower(s: string): (r: string)
    ensures |r| == |s|
    ensures forall i :: 0 <= i < |r| ==> !('A' <= r[i] <= 'Z')
    ensures forall i :: 0 <= i < |s| && !('A' <= s[i] <= 'Z') ==> r[i] == s[i]
    ensures forall i :: 0 <= i < |s| && 'A' <= s[i] <= 'Z' ==> r[i] as int == s[i] as int + 32
  {
    seq(|s|, i requires 0 <= i < |s| => LowerChar(s[i]))
  }

  /** Lower-casing twice is lower-casing once. */
  lemma LowerIdempotent(s: string)
    ensures Lower(Lower(s)) == Lower(s)
  {
    var l := Lower(s);
    assert forall i :: 0 <= i < |l| ==> Lower(l)[i] == l[i];
  }

  /** The languages the table knows, by lower-case key. */
  const Known: seq<string> :=
    ["python", "javascript", "java", "cpp", "csharp", "php", "ruby", "go", "swift", "rust"]

  /** The table itself: each known key maps to "language-" followed by the key. */
  const LanguageMap: map<string, string> :=
    map["python" := "language-python", "javascript" := "language-javascript",
        "java" := "language-java", "cpp" := "language-cpp",
        "csharp" := "language-csharp", "php" := "language-php",
        "ruby" := "language-ruby", "go" := "language-go",
        "swift" := "language-swift", "rust" := "language-rust"]

  /** The class for `lang`, with the table read as a plain dictionary. */
  function GetLanguageClass(lang: string): (r: string)
    ensures |r| > |"language-"| && r[..|"language-"|] == "language-"
  {
    var key := Lower(lang);
    if key in LanguageMap then LanguageMap[key] else "language-text"
  }

  /** The table holds exactly the known keys, each mapped to "language-" + key. */
  lemma LanguageMapShape()
    ensures LanguageMap.Keys == set k | k in Known
    ensures forall k :: k in LanguageMap ==> LanguageMap[k] == "language-" + k
  {
  }

  /** A name whose lower-case form is a known key gets that key's class;
      any other name gets "language-text". */
  lemma LanguageClassCases(lang: string)
    ensures Lower(lang) in Known ==> GetLanguageClass(lang) == "language-" + Lower(lang)
    ensures Lower(lang) !in Known ==> GetLanguageClass(lang) == "language-text"
  {
    LanguageMapShape();
  }

  /** Case does not matter: the page lower-cases the name for both views
      and the lookup lower-cases it again, so any casing gives the same class. */
  lemma LanguageClassIgnoresCase(lang: string)
    ensures GetLanguageClass(Lower(lang)) == GetLanguageClass(lang)
  {
    LowerIdempotent(lang);
  }

  /** The ten options of the exercise form's language selector. */
  const ExerciseOptions: seq<string> :=
    ["Python", "JavaScript", "Java", "C++", "C#", "PHP", "Ruby", "Go", "Swift", "Rust"]

  /** The class each option of the selector gets: eight get the class of
      their own lower-case name, while "C++" and "C#" lower-case to keys the
      table does not hold and get "language-text". */
  const ExerciseClasses: seq<string> :=
    ["language-python", "language-javascript", "language-java", "language-text", "language-text",
     "language-php", "language-ruby", "language-go", "language-swift", "language-rust"]

  lemma ExerciseOptionClasses()
    ensures forall i :: 0 <= i < |ExerciseOptions| ==> GetLanguageClass(ExerciseOptions[i]) == ExerciseClasses[i]
  {
    forall i | 0 <= i < |ExerciseOptions| ensures GetLanguageClass(ExerciseOptions[i]) == ExerciseClasses[i] {
      LowerOf(ExerciseOptions[i], ExerciseKeys[i]);
    }
  }

  const ExerciseKeys: seq<string> :=
    ["python", "javascript", "java", "c++", "c#", "php", "ruby", "go", "swift", "rust"]

  lemma LowerOf(s: string, l: string)
    requires |s| == |l| && forall j :: 0 <= j < |s| ==> LowerChar(s[j]) == l[j]
    ensures Lower(s) == l
  {
  }

  // The lookup as the code runs it: a property read on an object literal,
  // which also finds the members every object inherits, followed by `||`.

  /** The values a property read on the table can produce. */
  datatype JsValue =
    | Str(s: string)
    | Undefined
    | ObjectPrototype    // what `__proto__` reads as
    | ObjectConstructor  // the inherited `constructor` function

  /** The inherited members of a plain object whose names are all lower case,
      the only ones a lower-cased key can reach. */
  function PropertyRead(key: string): (v: JsValue)
    requires key == Lower(key)
    ensures key in LanguageMap ==> v == Str(LanguageMap[key])
    ensures v == Undefined <==> key !in LanguageMap && key != "constructor" && key != "__proto__"
  {
    if key in LanguageMap then Str(LanguageMap[key])
    else if key == "constructor" then ObjectConstructor
    else if key == "__proto__" then ObjectPrototype
    else Undefined
  }

  /** JavaScript truthiness of these values. */
  predicate Truthy(v: JsValue) {
    match v
    case Str(s) => s != ""
    case Undefined => false
    case _ => true
  }

  /** `languageMap[lang.toLowerCase()] || "language-text"`, as written. */
  function LanguageClassAsWritten(lang: string): (v: JsValue)
    ensures Truthy(v)
    ensures v.Str? ==> v.s == GetLanguageClass(lang)
  {
    LowerIdempotent(lang);
    var found := PropertyRead(Lower(lang));
    if Truthy(found) then found else Str("language-text")
  }

  /** The as-written lookup gives "Constructor" the Object constructor
      instead of a class name. */
  lemma ConstructorIsNotAClass()
    ensures LanguageClassAsWritten("Constructor") == ObjectConstructor
    ensures GetLanguageClass("Constructor") == "language-text"
  {
    assert Lower("Constructor") == "constructor";
  }

  /** Apart from the two inherited names, the as-written lookup is the
      dictionary lookup. */
  lemma AsWrittenAgrees(lang: string)
    requires Lower(lang) != "constructor" && Lower(lang) != "__proto__"
    ensures LanguageClassAsWritten(lang) == Str(GetLanguageClass(lang))
  {
  }

  /** The two inherited names are the only ones on which they disagree. */
  lemma AsWrittenDisagrees(lang: string)
    requires Lower(lang) == "constructor" || Lower(lang) == "__proto__"
    ensures !LanguageClassAsWritten(lang).Str?
    ensures GetLanguageClass(lang) == "language-text"
  {
  }
}
