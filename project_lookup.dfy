/**
  The project lookup form of the portfolio page: the keyword typed by the
  visitor is lower-cased and compared with three function names, each of
  which names one project; anything else gets a fixed fallback message.
 */
module ProjectLookup {

  const PrintProject: string := "Project 1: Python Console Application"
  const TypeProject: string := "Project 2: TypeScript Web App"
  const StringProject: string := "Project 3: String Manipulation Library"
  const NoProject: string := "No related project found for this function."

  predicate IsUpperAscii(c: char) {
    'A' <= c <= 'Z'
  }

  /** String.prototype.toLowerCase on one character, for the ASCII letters. */
  function LowerChar(c: char): (l: char)
    ensures !IsUpperAscii(l)
    ensures IsUpperAscii(c) ==> l as int == c as int + 32
    ensures !IsUpperAscii(c) ==> l == c
  {
    if IsUpperAscii(c) then (c as int + 32) as char else c
  }

  /** String.prototype.toLowerCase, character by character. */
  function ToLower(s: string): (r: string)
    ensures |r| == |s|
    ensures forall i :: 0 <= i < |s| ==> r[i] == LowerChar(s[i])
    ensures forall i :: 0 <= i < |r| ==> !IsUpperAscii(r[i])
  {
    seq(|s|, i requires 0 <= i < |s| => LowerChar(s[i]))
  }

  /**
    The project shown for a keyword. Each of the three keywords, and only
    it, gives its project; every other keyword gives the fallback message.
   */
  function ProjectFor(keyword: string): (project: string)
    ensures project == PrintProject <==> ToLower(keyword) == "print"
    ensures project == TypeProject <==> ToLower(keyword) == "type"
    ensures project == StringProject <==> ToLower(keyword) == "string"
    ensures project == NoProject <==>
      ToLower(keyword) != "print" && ToLower(keyword) != "type" && ToLower(keyword) != "string"
  {
    assert PrintProject[8] == '1' && TypeProject[8] == '2' && StringProject[8] == '3' && NoProject[8] == 'e';
    var key := ToLower(keyword);
    if key == "print" then PrintProject
    else if key == "type" then TypeProject
    else if key == "string" then StringProject
    else NoProject
  }

  /** Lower-casing twice is lower-casing once. */
  lemma ToLowerIdempotent(s: string)
    ensures ToLower(ToLower(s)) == ToLower(s)
  {
    var once := ToLower(s);
    forall i | 0 <= i < |s|
      ensures ToLower(once)[i] == once[i]
    {
      assert !IsUpperAscii(once[i]);
    }
  }

  /** The lookup ignores case: a keyword and its lower-case form give the same project. */
  lemma ProjectForIgnoresCase(keyword: string)
    ensures ProjectFor(keyword) == ProjectFor(ToLower(keyword))
  {
    ToLowerIdempotent(keyword);
  }

  /** Upper- and mixed-case spellings of the keywords are recognised. */
  lemma ProjectForExamples()
    ensures ProjectFor("PRINT") == PrintProject
    ensures ProjectFor("Type") == TypeProject
    ensures ProjectFor("StRiNg") == StringProject
    ensures ProjectFor("printf") == NoProject
    ensures ProjectFor("") == NoProject
  {
    assert ToLower("PRINT") == "print";
    assert ToLower("Type") == "type";
    assert ToLower("StRiNg") == "string";
    assert ToLower("printf") == "printf";
    assert ToLower("") == "";
  }
}
