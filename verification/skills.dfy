/** Canonical keys for skills and qualifications
    (utils/resume_utils.py, `normalize_skill` and `normalize_qualification`). */
module Skills {
  import opened Text

  /** Characters `[\s\.\-]` that skill normalisation deletes first. */
  predicate IsSkillSeparator(c: char) {
    IsSpace(c) || c == '.' || c == '-'
  }

  /** Characters `[a-z0-9]` a skill key may contain. */
  predicate IsKeyChar(c: char) {
    IsLower(c) || IsDigit(c)
  }

  predicate KeptInSkill(c: char) {
    !IsSkillSeparator(c)
  }

  predicate EndsWithJs(s: seq<char>) {
    |s| >= 2 && s[|s| - 2..] == "js"
  }

  predicate IsKey(s: seq<char>) {
    forall i :: 0 <= i < |s| ==> IsKeyChar(s[i])
  }

  /** `normalize_skill`: lower-case, delete whitespace, '.' and '-', drop one
      trailing "js", then delete everything outside `[a-z0-9]`. The "js" test
      happens before the last deletion, so "reactjs!" keeps its "js". */
  function NormalizeSkill(s: seq<char>): (r: seq<char>)
    ensures IsKey(r)
    ensures |r| <= |Lower(s)|
    ensures Select(Lower(s), IsKeyChar) == (if EndsWithJs(Select(Lower(s), KeptInSkill)) then r + "js" else r)
  {
    var squeezed := Select(Lower(s), KeptInSkill);
    SelectSelect(Lower(s), KeptInSkill, IsKeyChar);
    SelectDropJs(squeezed);
    Select(DropJs(squeezed), IsKeyChar)
  }

  /** Removing a trailing "js" before the final deletion removes it from
      the result. */
  lemma SelectDropJs(t: seq<char>)
    ensures Select(t, IsKeyChar) == (if EndsWithJs(t) then Select(DropJs(t), IsKeyChar) + "js" else Select(DropJs(t), IsKeyChar))
  {
    if EndsWithJs(t) {
      var u := t[..|t| - 2];
      assert t == u + "js";
      SelectAppend(u, "js", IsKeyChar);
      assert Select("js", IsKeyChar) == "js" by {
        assert forall i :: 0 <= i < |"js"| ==> IsKeyChar("js"[i]);
      }
    }
  }

  /** Removes one trailing "js", if there is one. */
  function DropJs(s: seq<char>): seq<char> {
    if EndsWithJs(s) then s[..|s| - 2] else s
  }

  /** `NormalizeSkill` after its first deletion step. */
  lemma NormalizeSteps(s: seq<char>, squeezed: seq<char>)
    requires Select(Lower(s), KeptInSkill) == squeezed
    ensures NormalizeSkill(s) == Select(DropJs(squeezed), IsKeyChar)
  {
  }

  /** Neither deletion touches a key. */
  lemma KeySurvives(t: seq<char>)
    requires IsKey(t)
    ensures Select(t, KeptInSkill) == t
    ensures Select(t, IsKeyChar) == t
  {
    assert forall i :: 0 <= i < |t| ==> KeptInSkill(t[i]);
  }

  lemma KeyPrefix(t: seq<char>, n: nat)
    requires IsKey(t) && n <= |t|
    ensures IsKey(t[..n])
  {
    assert forall i :: 0 <= i < n ==> t[..n][i] == t[i];
  }

  /** When lower-casing already yields a key, normalisation only drops a
      trailing "js". */
  lemma NormalizeLoweredKey(s: seq<char>, t: seq<char>)
    requires Lower(s) == t && IsKey(t)
    ensures NormalizeSkill(s) == (if EndsWithJs(t) then t[..|t| - 2] else t)
  {
    KeySurvives(t);
    NormalizeSteps(s, t);
    if EndsWithJs(t) {
      KeyPrefix(t, |t| - 2);
      KeySurvives(t[..|t| - 2]);
    }
  }

  /** On a string that is already a key, normalisation only drops a trailing "js". */
  lemma NormalizeKey(t: seq<char>)
    requires IsKey(t)
    ensures NormalizeSkill(t) == (if EndsWithJs(t) then t[..|t| - 2] else t)
  {
    LowerIdentity(t);
    NormalizeLoweredKey(t, t);
  }

  /** A key is a fixpoint of normalisation exactly when it does not end in "js";
      so normalisation is NOT idempotent in general ("reactjsjs" gives
      "reactjs", which gives "react"). */
  lemma NormalizeSkillFixpointIff(s: seq<char>)
    ensures var r := NormalizeSkill(s); NormalizeSkill(r) == r <==> !EndsWithJs(r)
  {
    NormalizeKey(NormalizeSkill(s));
  }

  /** Idempotence holds on every result that does not itself end in "js". */
  lemma NormalizeSkillIdempotentUnlessJs(s: seq<char>)
    requires !EndsWithJs(NormalizeSkill(s))
    ensures NormalizeSkill(NormalizeSkill(s)) == NormalizeSkill(s)
  {
    NormalizeSkillFixpointIff(s);
  }

  /** A string that lower-cases to a key ending in "js" normalises to that
      key without the "js". */
  lemma NormalizeLoweredJsKey(s: seq<char>, u: seq<char>)
    requires Lower(s) == u + "js" && IsKey(u + "js")
    ensures NormalizeSkill(s) == u
  {
    var t := u + "js";
    assert EndsWithJs(t) by { assert t[|t| - 2..] == "js"; }
    assert t[..|t| - 2] == u;
    NormalizeLoweredKey(s, t);
  }

  /** "ReactJS" and "react" share the key "react". */
  lemma NormalizeReactJs()
    ensures NormalizeSkill("ReactJS") == "react"
  {
    LowerReactJs();
    ReactJsIsKey();
    NormalizeLoweredJsKey("ReactJS", "react");
  }

  lemma LowerReactJs()
    ensures Lower("ReactJS") == "react" + "js"
  {
    LowerPointwise("ReactJS");
  }

  lemma ReactJsIsKey()
    ensures IsKey("react" + "js")
  {
    assert "react" + "js" == "reactjs";
  }

  lemma NormalizeReact()
    ensures NormalizeSkill("react") == "react"
  {
    NormalizeKey("react");
  }

  /** One normalisation removes only one "js". */
  lemma NormalizeDoubleJs()
    ensures NormalizeSkill("reactjsjs") == "reactjs"
  {
    assert "reactjsjs"[..7] == "reactjs";
    NormalizeKey("reactjsjs");
  }

  /** A key followed by one more character is not lowered further. */
  lemma KeyWithMarkLowered(t: seq<char>, c: char)
    requires IsKey(t)
    requires !IsUpper(c) && c != '\U{130}' && c != '\U{212a}'
    ensures Lower(t + [c]) == t + [c]
  {
    var s := t + [c];
    assert forall i :: 0 <= i < |s| ==> s[i] == c || IsKeyChar(s[i]);
    LowerIdentity(s);
  }

  /** A key followed by a character that is neither a separator nor a key
      character: the "js" test sees that character last. */
  lemma KeyWithMarkSqueezed(t: seq<char>, c: char)
    requires IsKey(t) && !IsKeyChar(c) && !IsSkillSeparator(c)
    ensures Select(t + [c], KeptInSkill) == t + [c]
    ensures !EndsWithJs(t + [c])
  {
    var s := t + [c];
    assert forall i :: 0 <= i < |s| ==> s[i] == c || IsKeyChar(s[i]);
    assert forall i :: 0 <= i < |s| ==> KeptInSkill(s[i]);
    if |s| >= 2 {
      assert s[|s| - 2..][1] == c;
    }
  }

  /** The final clean-up removes the trailing character and keeps the key. */
  lemma KeyWithMarkCleaned(t: seq<char>, c: char)
    requires IsKey(t) && !IsKeyChar(c)
    ensures Select(t + [c], IsKeyChar) == t
  {
    SelectAppend(t, [c], IsKeyChar);
    KeySurvives(t);
    assert Select([c], IsKeyChar) == [] by { assert [c][1..] == []; }
  }

  /** The "js" test precedes the final clean-up: a key followed by one
      punctuation character that only the clean-up removes keeps its "js". */
  lemma NormalizeKeyWithTrailingMark(t: seq<char>, c: char)
    requires IsKey(t)
    requires !IsKeyChar(c) && !IsSkillSeparator(c) && !IsUpper(c) && c != '\U{130}' && c != '\U{212a}'
    ensures NormalizeSkill(t + [c]) == t
  {
    var s := t + [c];
    KeyWithMarkLowered(t, c);
    KeyWithMarkSqueezed(t, c);
    NormalizeSteps(s, s);
    KeyWithMarkCleaned(t, c);
  }

  lemma NormalizeJsBeforeCleanup()
    ensures NormalizeSkill("reactjs!") == "reactjs"
  {
    assert "reactjs!" == "reactjs" + ['!'];
    NormalizeKeyWithTrailingMark("reactjs", '!');
  }

  /** The degree synonym sets of `normalize_qualification`. */
  const BachelorTerms: set<string> := {"bachelor", "bs", "b.sc", "bsc", "bachelors"}
  const MasterTerms: set<string> := {"master", "ms", "msc", "m.sc", "m.tech", "mtech", "masters"}
  const PhdTerms: set<string> := {"phd", "ph.d", "m.phil"}
  const MbaTerms: set<string> := {"mba"}
  const BbaTerms: set<string> := {"bba"}

  predicate IsSynonym(q: string) {
    q in BachelorTerms || q in MasterTerms || q in PhdTerms || q in MbaTerms || q in BbaTerms
  }

  /** `normalize_qualification`: a lower-cased synonym becomes its canonical
      token; anything else comes back lower-cased. */
  function NormalizeQualification(q: string): (r: string)
    ensures IsSynonym(Lower(q)) ==> r in {"bachelor", "master", "phd", "mba", "bba"}
    ensures Lower(q) in BachelorTerms ==> r == "bachelor"
    ensures Lower(q) in MasterTerms ==> r == "master"
    ensures Lower(q) in PhdTerms ==> r == "phd"
    ensures Lower(q) in MbaTerms ==> r == "mba"
    ensures Lower(q) in BbaTerms ==> r == "bba"
    ensures !IsSynonym(Lower(q)) ==> r == Lower(q)
  {
    var l := Lower(q);
    if l in BachelorTerms then "bachelor"
    else if l in MasterTerms then "master"
    else if l in PhdTerms then "phd"
    else if l in MbaTerms then "mba"
    else if l in BbaTerms then "bba"
    else l
  }

  /** Each canonical token is a synonym of itself, so it is left alone. */
  lemma CanonicalTokenFixed(t: string)
    requires t in {"bachelor", "master", "phd", "mba", "bba"}
    ensures NormalizeQualification(t) == t
  {
    LowerIdentity(t);
  }

  /** Normalising a normalised qualification changes nothing. */
  lemma NormalizeQualificationIdempotent(q: string)
    ensures NormalizeQualification(NormalizeQualification(q)) == NormalizeQualification(q)
  {
    var r := NormalizeQualification(q);
    if IsSynonym(Lower(q)) {
      CanonicalTokenFixed(r);
    } else {
      LowerIdempotent(q);
    }
  }

  lemma NormalizeBsc()
    ensures NormalizeQualification("B.Sc") == "bachelor"
  {
    assert Lower("B.Sc") == "b.sc" by { LowerPointwise("B.Sc"); }
  }

  lemma NormalizeBachelors()
    ensures NormalizeQualification("bachelors") == "bachelor"
  {
    LowerIdentity("bachelors");
  }

  /** Field tokens are not collapsed, only lower-cased. */
  lemma NormalizeFieldToken()
    ensures NormalizeQualification("CS") == "cs"
  {
    assert Lower("CS") == "cs" by { LowerPointwise("CS"); }
    assert "cs" != "bs" && "cs" != "ms";
  }
}
