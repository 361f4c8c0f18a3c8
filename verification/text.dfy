/** Character classes and the text cleaner used before embedding
    (utils/resume_utils.py, `preprocess_text`). */
module Text {

  /** Python's whitespace for `str` (what `\s` matches in a `str` pattern
      and what `str.isspace`, `str.split` and `str.strip` use). */
  predicate IsSpace(c: char) {
    || ('\t' <= c <= '\r')
    || ('\U{1c}' <= c <= '\U{1f}')
    || c == ' '
    || c == '\U{85}'
    || c == '\U{a0}'
    || c == '\U{1680}'
    || ('\U{2000}' <= c <= '\U{200a}')
    || c == '\U{2028}'
    || c == '\U{2029}'
    || c == '\U{202f}'
    || c == '\U{205f}'
    || c == '\U{3000}'
  }

  predicate IsUpper(c: char) { 'A' <= c <= 'Z' }
  predicate IsLower(c: char) { 'a' <= c <= 'z' }
  predicate IsDigit(c: char) { '0' <= c <= '9' }

  /** `str.lower()` on one code point. ASCII letters, plus the two code
      points whose lower-case form contains an ASCII letter (dotted capital
      I and the Kelvin sign); every other code point is kept as it is. */
  function LowerChar(c: char): (r: seq<char>)
    ensures forall i :: 0 <= i < |r| ==> !IsUpper(r[i])
    ensures IsUpper(c) ==> |r| == 1 && IsLower(r[0]) && r[0] as int - 'a' as int == c as int - 'A' as int
    ensures !IsUpper(c) && c != '\U{130}' && c != '\U{212a}' ==> r == [c]
  {
    if IsUpper(c) then [(c as int + 32) as char]
    else if c == '\U{130}' then ['i', '\U{307}']
    else if c == '\U{212a}' then ['k']
    else [c]
  }

  /** `str.lower()`. */
  function Lower(s: seq<char>): (r: seq<char>)
    ensures forall i :: 0 <= i < |r| ==> !IsUpper(r[i])
  {
    if s == [] then [] else LowerChar(s[0]) + Lower(s[1..])
  }

  lemma {:induction false} LowerAppend(a: seq<char>, b: seq<char>)
    ensures Lower(a + b) == Lower(a) + Lower(b)
  {
    if a == [] {
      assert a + b == b;
    } else {
      assert (a + b)[1..] == a[1..] + b;
      LowerAppend(a[1..], b);
    }
  }

  /** Without a dotted capital I, lower-casing maps each character to exactly one. */
  lemma {:induction false} LowerPointwise(s: seq<char>)
    requires forall i :: 0 <= i < |s| ==> s[i] != '\U{130}'
    ensures |Lower(s)| == |s|
    ensures forall i :: 0 <= i < |s| ==> Lower(s)[i] == LowerChar(s[i])[0]
  {
    if s != [] {
      LowerPointwise(s[1..]);
      assert forall i :: 1 <= i < |s| ==> s[1..][i - 1] == s[i];
    }
  }

  /** The alphabet from `first`, as `count` consecutive code points. */
  function Alphabet(first: char, count: nat): (s: seq<char>)
    requires first as int + count <= 0x80
    ensures |s| == count
    ensures forall i :: 0 <= i < count ==> s[i] as int == first as int + i
  {
    seq(count, i requires 0 <= i < count => (first as int + i) as char)
  }

  /** Each capital letter becomes the small letter at the same place in the
      alphabet: "A".."Z" lower-case to "a".."z". */
  lemma LowerAlphabet()
    ensures Lower(Alphabet('A', 26)) == Alphabet('a', 26)
  {
    var s := Alphabet('A', 26);
    LowerPointwise(s);
  }

  /** A string with no character that lower-casing changes is its own lower case. */
  lemma {:induction false} LowerIdentity(s: seq<char>)
    requires forall i :: 0 <= i < |s| ==> !IsUpper(s[i]) && s[i] != '\U{130}' && s[i] != '\U{212a}'
    ensures Lower(s) == s
  {
    if s != [] {
      LowerIdentity(s[1..]);
    }
  }

  /** Lower-casing twice is lower-casing once. */
  lemma {:induction false} LowerIdempotent(s: seq<char>)
    ensures Lower(Lower(s)) == Lower(s)
  {
    if s != [] {
      var h := LowerChar(s[0]);
      assert Lower(s) == h + Lower(s[1..]);
      LowerAppend(h, Lower(s[1..]));
      LowerIdentity(h);
      LowerIdempotent(s[1..]);
    }
  }

  /** The characters `[^a-zA-Z0-9_\s]` does NOT remove. */
  predicate KeptByCleaner(c: char) {
    IsLower(c) || IsUpper(c) || IsDigit(c) || c == '_' || IsSpace(c)
  }

  /** The characters a cleaned text may contain. */
  predicate IsCleanChar(c: char) {
    IsLower(c) || IsDigit(c) || c == '_' || c == ' '
  }

  /** The characters of `s` that satisfy `keep`, in order (`re.sub` of the
      complementary class with the empty string). */
  function Select(s: seq<char>, keep: char -> bool): (r: seq<char>)
    ensures |r| <= |s|
    ensures forall i :: 0 <= i < |r| ==> keep(r[i])
    ensures (forall i :: 0 <= i < |s| ==> keep(s[i])) ==> r == s
  {
    if s == [] then []
    else (if keep(s[0]) then [s[0]] else []) + Select(s[1..], keep)
  }

  /** Selection never invents a character. */
  lemma {:induction false} SelectMembers(s: seq<char>, keep: char -> bool)
    ensures forall i :: 0 <= i < |Select(s, keep)| ==> Select(s, keep)[i] in s
  {
    if s != [] {
      SelectMembers(s[1..], keep);
    }
  }

  lemma {:induction false} SelectAppend(a: seq<char>, b: seq<char>, keep: char -> bool)
    ensures Select(a + b, keep) == Select(a, keep) + Select(b, keep)
  {
    if a == [] {
      assert a + b == b;
    } else {
      assert (a + b)[1..] == a[1..] + b;
      SelectAppend(a[1..], b, keep);
    }
  }

  /** Deleting first what a weaker filter rejects changes nothing. */
  lemma {:induction false} SelectSelect(s: seq<char>, p: char -> bool, q: char -> bool)
    requires forall c :: q(c) ==> p(c)
    ensures Select(Select(s, p), q) == Select(s, q)
  {
    if s != [] {
      var head := if p(s[0]) then [s[0]] else [];
      assert Select(s, p) == head + Select(s[1..], p);
      SelectAppend(head, Select(s[1..], p), q);
      assert Select(head, q) == (if q(s[0]) then [s[0]] else []) by {
        if p(s[0]) {
          assert head[1..] == [];
        }
      }
      SelectSelect(s[1..], p, q);
    }
  }

  /** The non-whitespace characters of `s`, in order. */
  function Solid(s: seq<char>): seq<char> {
    if s == [] then []
    else (if IsSpace(s[0]) then [] else [s[0]]) + Solid(s[1..])
  }

  /** No leading, trailing or doubled space. */
  predicate SingleSpaced(r: seq<char>) {
    && (|r| > 0 ==> r[0] != ' ' && r[|r| - 1] != ' ')
    && (forall i :: 0 <= i < |r| - 1 ==> r[i] == ' ' ==> r[i + 1] != ' ')
  }

  /** `re.sub(r'\s+', ' ', s).strip()`: every run of whitespace becomes one
      space and the ends are trimmed. */
  function Squash(s: seq<char>): (r: seq<char>)
    ensures SingleSpaced(r)
    ensures |r| > 0 ==> !IsSpace(r[0])
    decreases |s|
  {
    if s == [] then []
    else if IsSpace(s[0]) then Squash(s[1..])
    else if |s| == 1 || !IsSpace(s[1]) then [s[0]] + Squash(s[1..])
    else
      var rest := Squash(s[1..]);
      if rest == [] then [s[0]] else [s[0], ' '] + rest
  }

  /** Squashing only ever emits ' ' or a non-whitespace character of its input. */
  lemma {:induction false} SquashChars(s: seq<char>)
    ensures forall i :: 0 <= i < |Squash(s)| ==> Squash(s)[i] == ' ' || (Squash(s)[i] in s && !IsSpace(Squash(s)[i]))
    decreases |s|
  {
    if s != [] {
      SquashChars(s[1..]);
    }
  }

  lemma {:induction false} SolidAppend(a: seq<char>, b: seq<char>)
    ensures Solid(a + b) == Solid(a) + Solid(b)
  {
    if a == [] {
      assert a + b == b;
    } else {
      assert (a + b)[1..] == a[1..] + b;
      SolidAppend(a[1..], b);
    }
  }

  /** Squashing keeps every non-whitespace character, in order. */
  lemma {:induction false} SquashSolid(s: seq<char>)
    ensures Solid(Squash(s)) == Solid(s)
    decreases |s|
  {
    if s != [] {
      SquashSolid(s[1..]);
      var rest := Squash(s[1..]);
      if IsSpace(s[0]) {
      } else if |s| == 1 || !IsSpace(s[1]) {
        SolidAppend([s[0]], rest);
      } else if rest == [] {
        SolidAppend([s[0]], []);
      } else {
        SolidAppend([s[0], ' '], rest);
        assert Solid([s[0], ' ']) == [s[0]] by {
          assert [s[0], ' '][1..] == [' '];
          assert Solid([' ']) == [] by { assert [' '][1..] == []; }
        }
      }
    }
  }

  /** Leading whitespace is dropped. */
  lemma {:induction false} SquashLeadingSpace(w: seq<char>, b: seq<char>)
    requires forall i :: 0 <= i < |w| ==> IsSpace(w[i])
    ensures Squash(w + b) == Squash(b)
    decreases |w|
  {
    if w == [] {
      assert w + b == b;
    } else {
      assert (w + b)[1..] == w[1..] + b;
      SquashLeadingSpace(w[1..], b);
    }
  }

  /** A text that ends in a non-whitespace character never squashes to nothing. */
  lemma {:induction false} SquashKeepsLast(x: seq<char>)
    requires |x| > 0 && !IsSpace(x[|x| - 1])
    ensures Squash(x) != []
    decreases |x|
  {
    if IsSpace(x[0]) {
      SquashKeepsLast(x[1..]);
    }
  }

  /** What `Squash` does with the first character: whitespace is dropped, */
  lemma SquashConsSpace(c: char, x: seq<char>)
    requires IsSpace(c)
    ensures Squash([c] + x) == Squash(x)
  {
    assert ([c] + x)[1..] == x;
  }

  /** a character followed by a non-whitespace one is kept, */
  lemma SquashConsWord(c: char, x: seq<char>)
    requires !IsSpace(c) && (x == [] || !IsSpace(x[0]))
    ensures Squash([c] + x) == [c] + Squash(x)
  {
    assert ([c] + x)[1..] == x;
  }

  /** and a character followed by whitespace that is not trailing is kept
      with one space after it. */
  lemma SquashConsGap(c: char, x: seq<char>)
    requires !IsSpace(c) && |x| > 0 && IsSpace(x[0]) && Squash(x) != []
    ensures Squash([c] + x) == [c, ' '] + Squash(x)
  {
    assert ([c] + x)[1..] == x;
  }

  /** A text that starts with a non-whitespace character never squashes to nothing. */
  lemma SquashKeepsFirst(x: seq<char>)
    requires |x| > 0 && !IsSpace(x[0])
    ensures Squash(x) != []
  {
  }

  lemma SquashJoinBase(c: char, w: seq<char>, b: seq<char>)
    requires !IsSpace(c)
    requires |w| > 0 && forall i :: 0 <= i < |w| ==> IsSpace(w[i])
    requires |b| > 0 && !IsSpace(b[0])
    ensures Squash([c] + w + b) == Squash([c]) + [' '] + Squash(b)
  {
    var x := w + b;
    assert [c] + w + b == [c] + x;
    assert x[0] == w[0];
    SquashLeadingSpace(w, b);
    SquashKeepsFirst(b);
    SquashConsGap(c, x);
    SquashConsWord(c, []);
    assert [c] + [] == [c];
  }

  lemma SquashJoinStep(c: char, t: seq<char>, w: seq<char>, b: seq<char>)
    requires |t| > 0 && !IsSpace(t[|t| - 1])
    requires Squash(t + w + b) == Squash(t) + [' '] + Squash(b)
    ensures Squash([c] + t + w + b) == Squash([c] + t) + [' '] + Squash(b)
  {
    var x := t + w + b;
    assert [c] + t + w + b == [c] + x;
    assert x[0] == t[0];
    if IsSpace(c) {
      SquashConsSpace(c, x);
      SquashConsSpace(c, t);
    } else if !IsSpace(t[0]) {
      SquashConsWord(c, x);
      SquashConsWord(c, t);
    } else {
      assert Squash(x) != [] by { assert Squash(x)[|Squash(t)|] == ' '; }
      SquashGapStep(c, t, x);
    }
  }

  /** The gap case of the step: `c` is kept with one space after it on both sides. */
  lemma SquashGapStep(c: char, t: seq<char>, x: seq<char>)
    requires !IsSpace(c) && |t| > 0 && IsSpace(t[0]) && !IsSpace(t[|t| - 1])
    requires |x| > 0 && x[0] == t[0] && Squash(x) != []
    ensures Squash([c] + x) == [c, ' '] + Squash(x)
    ensures Squash([c] + t) == [c, ' '] + Squash(t)
  {
    SquashKeepsLast(t);
    SquashConsGap(c, x);
    SquashConsGap(c, t);
  }
  /** A whitespace run between two non-whitespace characters becomes
      exactly one space, whatever whitespace it consists of. */
  lemma {:induction false} SquashJoin(a: seq<char>, w: seq<char>, b: seq<char>)
    requires |a| > 0 && !IsSpace(a[|a| - 1])
    requires |w| > 0 && forall i :: 0 <= i < |w| ==> IsSpace(w[i])
    requires |b| > 0 && !IsSpace(b[0])
    ensures Squash(a + w + b) == Squash(a) + [' '] + Squash(b)
    decreases |a|
  {
    var t := a[1..];
    assert a == [a[0]] + t;
    assert a + w + b == [a[0]] + t + w + b;
    if t == [] {
      assert a == [a[0]] && a + w + b == [a[0]] + w + b;
      SquashJoinBase(a[0], w, b);
    } else {
      SquashJoin(t, w, b);
      SquashJoinStep(a[0], t, w, b);
    }
  }

  /** A single-spaced string whose only whitespace is ' ' is left alone. */
  lemma {:induction false} SquashIdentity(s: seq<char>)
    requires SingleSpaced(s)
    requires forall i :: 0 <= i < |s| ==> s[i] == ' ' || !IsSpace(s[i])
    ensures Squash(s) == s
    decreases |s|
  {
    if |s| == 0 {
    } else if |s| == 1 || !IsSpace(s[1]) {
      SquashIdentity(s[1..]);
    } else {
      assert s[1] == ' ';
      assert s[2] != ' ';
      SquashIdentity(s[2..]);
      assert s[1..][1..] == s[2..];
    }
  }

  /** `preprocess_text`: lower-case, drop every character outside
      `[a-z0-9_]` and whitespace, collapse whitespace runs, trim. (Its first
      substitution rewrites each match to itself and has no effect.) */
  function PreprocessText(s: seq<char>): (r: seq<char>)
    ensures forall i :: 0 <= i < |r| ==> IsCleanChar(r[i])
    ensures SingleSpaced(r)
    ensures Solid(r) == Solid(Select(Lower(s), KeptByCleaner))
  {
    var lowered := Lower(s);
    var kept := Select(lowered, KeptByCleaner);
    var r := Squash(kept);
    SquashSolid(kept);
    assert forall i :: 0 <= i < |r| ==> IsCleanChar(r[i]) by {
      SquashChars(kept);
      SelectMembers(lowered, KeptByCleaner);
      forall i | 0 <= i < |r|
        ensures IsCleanChar(r[i])
      {
        if r[i] != ' ' {
          assert r[i] in kept;
          assert r[i] in lowered;
        }
      }
    }
    r
  }

  /** Cleaning a cleaned text changes nothing. */
  lemma PreprocessIdempotent(s: seq<char>)
    ensures PreprocessText(PreprocessText(s)) == PreprocessText(s)
  {
    var r := PreprocessText(s);
    LowerIdentity(r);
    assert Select(r, KeptByCleaner) == r;
    SquashIdentity(r);
  }

  /** The cleaned text is empty exactly when the input has no letter, digit
      or underscore. */
  lemma PreprocessEmptyIff(s: seq<char>)
    ensures PreprocessText(s) == [] <==> Solid(Select(Lower(s), KeptByCleaner)) == []
  {
    var r := PreprocessText(s);
    if r != [] {
      assert Solid(r) != [] by {
        assert !IsSpace(r[0]);
        assert Solid(r) == [r[0]] + Solid(r[1..]);
      }
    }
  }

  /** Lower-casing and the deletion leave clean text and whitespace alone. */
  lemma CleanSurvives(s: seq<char>)
    requires forall i :: 0 <= i < |s| ==> IsCleanChar(s[i]) || IsSpace(s[i])
    ensures Select(Lower(s), KeptByCleaner) == s
  {
    forall i | 0 <= i < |s|
      ensures !IsUpper(s[i]) && s[i] != '\U{130}' && s[i] != '\U{212a}' && KeptByCleaner(s[i])
    {
      CleanCharSurvives(s[i]);
    }
    LowerIdentity(s);
  }

  lemma CleanCharSurvives(c: char)
    requires IsCleanChar(c) || IsSpace(c)
    ensures !IsUpper(c) && c != '\U{130}' && c != '\U{212a}' && KeptByCleaner(c)
  {
  }

  lemma CleanJoinSurvives(a: seq<char>, w: seq<char>, b: seq<char>)
    requires forall i :: 0 <= i < |a| ==> IsCleanChar(a[i])
    requires forall i :: 0 <= i < |w| ==> IsSpace(w[i])
    requires forall i :: 0 <= i < |b| ==> IsCleanChar(b[i])
    ensures Select(Lower(a + w + b), KeptByCleaner) == a + w + b
  {
    LowerAppend(a + w, b);
    LowerAppend(a, w);
    SelectAppend(Lower(a) + Lower(w), Lower(b), KeptByCleaner);
    SelectAppend(Lower(a), Lower(w), KeptByCleaner);
    CleanSurvives(a);
    CleanSurvives(w);
    CleanSurvives(b);
  }

  /** Cleaned, single-spaced text is its own squash and has no whitespace at its ends. */
  lemma CleanIsSquashed(s: seq<char>)
    requires SingleSpaced(s) && forall i :: 0 <= i < |s| ==> IsCleanChar(s[i])
    ensures Squash(s) == s
    ensures |s| > 0 ==> !IsSpace(s[0]) && !IsSpace(s[|s| - 1])
  {
    SquashIdentity(s);
  }

  /** Two cleaned texts separated by any run of whitespace clean to the
      two joined by one space: "a\nb" becomes "a b". */
  lemma PreprocessJoin(a: seq<char>, w: seq<char>, b: seq<char>)
    requires |a| > 0 && SingleSpaced(a) && forall i :: 0 <= i < |a| ==> IsCleanChar(a[i])
    requires |b| > 0 && SingleSpaced(b) && forall i :: 0 <= i < |b| ==> IsCleanChar(b[i])
    requires |w| > 0 && forall i :: 0 <= i < |w| ==> IsSpace(w[i])
    ensures PreprocessText(a + w + b) == a + [' '] + b
  {
    var s := a + w + b;
    assert Select(Lower(s), KeptByCleaner) == s by { CleanJoinSurvives(a, w, b); }
    assert Squash(s) == a + [' '] + b by {
      CleanIsSquashed(a);
      CleanIsSquashed(b);
      SquashJoin(a, w, b);
    }
  }
}
