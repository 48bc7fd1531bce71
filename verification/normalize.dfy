/**
 * The two string normalisers of the game server and the answer matcher built
 * on them. normalize_answer strips, lower-cases and then turns every run of
 * whitespace into one space; normalize_text lower-cases, strips and then
 * drops every character that is neither a word character nor whitespace.
 *
 * Characters are Unicode scalar values. Whitespace is exactly the set of
 * characters for which Python's str.isspace() holds (the same set `strip()`
 * removes and `\s` matches on str patterns). Case mapping is the ASCII one.
 *
 * The functions carry only cheap contracts so that the game rules, which
 * compare normalised answers, are not burdened by them; what the
 * normalisers guarantee is stated in the lemmas.
 */
module Normalize {

  /** Python's str.isspace(): the characters strip() removes and `\s` matches. */
  predicate IsSpace(c: char) {
    || c == ' '
    || ('\t' <= c <= '\r')
    || ('\U{1c}' <= c <= '\U{1f}')
    || c == '\U{85}' || c == '\U{a0}' || c == '\U{1680}'
    || ('\U{2000}' <= c <= '\U{200a}')
    || c == '\U{2028}' || c == '\U{2029}' || c == '\U{202f}'
    || c == '\U{205f}' || c == '\U{3000}'
  }

  predicate IsUpper(c: char) {
    'A' <= c <= 'Z'
  }

  /** `\w`: letters, digits and the underscore. Every non-ASCII character that
      is not whitespace is taken to be a letter. */
  predicate IsWordChar(c: char) {
    || ('a' <= c <= 'z') || ('A' <= c <= 'Z') || ('0' <= c <= '9') || c == '_'
    || (c > '\U{7f}' && !IsSpace(c))
  }

  function LowerChar(c: char): (r: char)
    ensures !IsUpper(r)
    ensures IsSpace(r) == IsSpace(c) && IsWordChar(r) == IsWordChar(c)
  {
    if IsUpper(c) then (c as int + 32) as char else c
  }

  /** str.lower() */
  function Lower(s: string): (r: string)
    ensures |r| == |s|
  {
    seq(|s|, i requires 0 <= i < |s| => LowerChar(s[i]))
  }

  /** str.lstrip() */
  function TrimStart(s: string): (r: string)
    ensures |r| <= |s|
    ensures s != [] && IsSpace(s[0]) ==> |r| < |s|
  {
    if s != [] && IsSpace(s[0]) then TrimStart(s[1..]) else s
  }

  /** str.rstrip() */
  function TrimEnd(s: string): (r: string)
    ensures |r| <= |s|
  {
    if s != [] && IsSpace(s[|s| - 1]) then TrimEnd(s[..|s| - 1]) else s
  }

  /** str.strip() */
  function Strip(s: string): string {
    TrimEnd(TrimStart(s))
  }

  /** re.sub(r'\s+', ' ', s): each maximal run of whitespace becomes one space. */
  function CollapseSpaces(s: string): string
    decreases |s|
  {
    if s == [] then []
    else if IsSpace(s[0]) then " " + CollapseSpaces(TrimStart(s))
    else [s[0]] + CollapseSpaces(s[1..])
  }

  /** normalize_answer: the form in which a new answer is compared with the
      answers already asked in the room. */
  function NormalizeAnswer(s: string): string {
    CollapseSpaces(Lower(Strip(s)))
  }

  /** re.sub(r'[^\w\s]', '', s): drops every character that is neither a word
      character nor whitespace, keeping the others in order. */
  function DropPunctuation(s: string): string {
    if s == [] then []
    else if IsWordChar(s[0]) || IsSpace(s[0]) then [s[0]] + DropPunctuation(s[1..])
    else DropPunctuation(s[1..])
  }

  /** normalize_text: the form in which the fuzzy matcher compares answers. */
  function NormalizeText(s: string): string {
    DropPunctuation(Strip(Lower(s)))
  }

  /**
   * is_close_enough(user_answer, correct_answer). Both sides are normalised
   * with normalize_text; equal normal forms always match (difflib's ratio of
   * two equal strings is 1.0). Whether two different normal forms match, by
   * float equality or by a similarity ratio of at least 0.8, is decided by
   * the oracle `similar`.
   */
  predicate IsCloseEnough(similar: (string, string) -> bool, userAnswer: string, correctAnswer: string) {
    var u := NormalizeText(userAnswer);
    var c := NormalizeText(correctAnswer);
    u == c || similar(u, c)
  }

  /** is_close_enough as a function value, the matcher the scoring rules apply. */
  function CloseEnough(similar: (string, string) -> bool): (string, string) -> bool {
    (userAnswer, correctAnswer) => IsCloseEnough(similar, userAnswer, correctAnswer)
  }

  // ---------------------------------------------------------------------
  // Which characters survive, in order

  /** The characters of `s` that satisfy `p`, in their order. */
  function Keep(s: string, p: char -> bool): string {
    if s == [] then [] else (if p(s[0]) then [s[0]] else []) + Keep(s[1..], p)
  }

  predicate NotSpace(c: char) {
    !IsSpace(c)
  }

  /** A class of characters that holds no whitespace. */
  ghost predicate SpaceFree(p: char -> bool) {
    forall c :: p(c) ==> !IsSpace(c)
  }

  /** A class of characters that lower-casing never moves a character into
      or out of. */
  ghost predicate CaseBlind(p: char -> bool) {
    forall c :: p(LowerChar(c)) == p(c)
  }

  lemma {:induction false} KeepAppend(a: string, b: string, p: char -> bool)
    ensures Keep(a + b, p) == Keep(a, p) + Keep(b, p)
  {
    if a != [] {
      assert (a + b)[1..] == a[1..] + b;
      KeepAppend(a[1..], b, p);
    } else {
      assert a + b == b;
    }
  }

  /** lstrip removes no character of a whitespace-free class. */
  lemma {:induction false} TrimStartKeeps(s: string, p: char -> bool)
    requires SpaceFree(p)
    ensures Keep(TrimStart(s), p) == Keep(s, p)
  {
    if s != [] && IsSpace(s[0]) {
      TrimStartKeeps(s[1..], p);
    }
  }

  /** rstrip removes no character of a whitespace-free class. */
  lemma {:induction false} TrimEndKeeps(s: string, p: char -> bool)
    requires SpaceFree(p)
    ensures Keep(TrimEnd(s), p) == Keep(s, p)
  {
    if s != [] && IsSpace(s[|s| - 1]) {
      var init := s[..|s| - 1];
      TrimEndKeeps(init, p);
      assert s == init + [s[|s| - 1]];
      KeepAppend(init, [s[|s| - 1]], p);
    }
  }

  /** Lower-casing commutes with keeping a class that ignores case. */
  lemma {:induction false} LowerKeeps(s: string, p: char -> bool)
    requires CaseBlind(p)
    ensures Keep(Lower(s), p) == Lower(Keep(s, p))
  {
    if s != [] {
      LowerKeeps(s[1..], p);
      assert Lower(s)[1..] == Lower(s[1..]);
      var head := if p(s[0]) then [s[0]] else [];
      assert Lower(head + Keep(s[1..], p)) == Lower(head) + Lower(Keep(s[1..], p));
    }
  }

  /** strip() removes whitespace only: the other characters are the input's,
      in order and count. */
  lemma StripKeepsText(s: string, p: char -> bool)
    requires SpaceFree(p)
    ensures Keep(Strip(s), p) == Keep(s, p)
  {
    TrimStartKeeps(s, p);
    TrimEndKeeps(TrimStart(s), p);
  }

  /** The collapse rewrites whitespace only: the other characters are the
      input's, in order and count. */
  lemma {:induction false} CollapseKeepsText(s: string)
    ensures Keep(CollapseSpaces(s), NotSpace) == Keep(s, NotSpace)
    decreases |s|
  {
    if s != [] {
      if IsSpace(s[0]) {
        TrimStartKeeps(s, NotSpace);
        var rest := CollapseSpaces(TrimStart(s));
        CollapseKeepsText(TrimStart(s));
        assert (" " + rest)[1..] == rest;
      } else {
        var rest := CollapseSpaces(s[1..]);
        CollapseKeepsText(s[1..]);
        assert ([s[0]] + rest)[1..] == rest;
      }
    }
  }

  // ---------------------------------------------------------------------
  // What strip() removes

  /** lstrip removes a prefix made of whitespace only, and what it keeps
      does not start with whitespace. */
  lemma {:induction false} TrimStartRemovesSpace(s: string)
    ensures var r := TrimStart(s);
      && r == s[|s| - |r|..]
      && (r == [] || !IsSpace(r[0]))
      && forall i :: 0 <= i < |s| - |r| ==> IsSpace(s[i])
  {
    if s != [] && IsSpace(s[0]) {
      TrimStartRemovesSpace(s[1..]);
      var r := TrimStart(s);
      forall i | 1 <= i < |s| - |r| ensures IsSpace(s[i]) {
        assert s[1..][i - 1] == s[i];
      }
    }
  }

  /** rstrip removes a suffix made of whitespace only, and what it keeps
      does not end with whitespace. */
  lemma {:induction false} TrimEndRemovesSpace(s: string)
    ensures var r := TrimEnd(s);
      && r == s[..|r|]
      && (r == [] || !IsSpace(r[|r| - 1]))
      && forall i :: |r| <= i < |s| ==> IsSpace(s[i])
  {
    if s != [] && IsSpace(s[|s| - 1]) {
      var init := s[..|s| - 1];
      TrimEndRemovesSpace(init);
      var r := TrimEnd(s);
      forall i | |r| <= i < |s| - 1 ensures IsSpace(s[i]) {
        assert init[i] == s[i];
      }
    }
  }

  /** strip leaves no whitespace at either end and keeps every other character. */
  lemma StripKeepsNonSpace(s: string)
    ensures var r := Strip(s);
      && (r == [] || (!IsSpace(r[0]) && !IsSpace(r[|r| - 1])))
      && (forall c :: c in r ==> c in s)
      && (forall i :: 0 <= i < |s| && !IsSpace(s[i]) ==> s[i] in r)
  {
    var t := TrimStart(s);
    var r := TrimEnd(t);
    TrimStartRemovesSpace(s);
    TrimEndRemovesSpace(t);
    forall i | 0 <= i < |s| && !IsSpace(s[i]) ensures s[i] in r {
      assert s[i] == r[i - (|s| - |t|)];
    }
  }

  /** A string with no whitespace at either end is its own strip. */
  lemma StripTrimmed(s: string)
    requires s == [] || (!IsSpace(s[0]) && !IsSpace(s[|s| - 1]))
    ensures Strip(s) == s
  {
  }

  // ---------------------------------------------------------------------
  // The collapse of whitespace runs

  /** The shape of the collapse: whitespace only as single plain spaces, and
      whitespace at an end exactly where the input has it. */
  lemma {:induction false} CollapseShape(s: string)
    ensures var r := CollapseSpaces(s);
      && (forall i :: 0 <= i < |r| && IsSpace(r[i]) ==> r[i] == ' ')
      && (forall i :: 0 <= i < |r| - 1 ==> !(IsSpace(r[i]) && IsSpace(r[i + 1])))
      && (forall c :: c in r ==> c == ' ' || c in s)
      && (|r| == 0 <==> |s| == 0)
      && (s != [] ==> (IsSpace(r[0]) <==> IsSpace(s[0])))
      && (s != [] ==> (IsSpace(r[|r| - 1]) <==> IsSpace(s[|s| - 1])))
    decreases |s|
  {
    if s != [] {
      var r := CollapseSpaces(s);
      if IsSpace(s[0]) {
        var t := TrimStart(s);
        TrimStartRemovesSpace(s);
        CollapseShape(t);
        var rest := CollapseSpaces(t);
        assert r == " " + rest;
        assert forall c :: c in t ==> c in s;
        if t == [] {
          assert IsSpace(s[|s| - 1]);
        } else {
          assert t[|t| - 1] == s[|s| - 1];
        }
        forall i | 0 <= i < |r| - 1 ensures !(IsSpace(r[i]) && IsSpace(r[i + 1])) {
          if i > 0 { assert r[i] == rest[i - 1] && r[i + 1] == rest[i]; }
        }
        forall i | 0 <= i < |r| && IsSpace(r[i]) ensures r[i] == ' ' {
          if i > 0 { assert r[i] == rest[i - 1]; }
        }
      } else {
        var tail := s[1..];
        CollapseShape(tail);
        var rest := CollapseSpaces(tail);
        assert r == [s[0]] + rest;
        assert forall c :: c in tail ==> c in s;
        if tail != [] {
          assert tail[0] == s[1] && tail[|tail| - 1] == s[|s| - 1];
        }
        forall i | 0 <= i < |r| - 1 ensures !(IsSpace(r[i]) && IsSpace(r[i + 1])) {
          if i > 0 { assert r[i] == rest[i - 1] && r[i + 1] == rest[i]; }
        }
        forall i | 0 <= i < |r| && IsSpace(r[i]) ensures r[i] == ' ' {
          if i > 0 { assert r[i] == rest[i - 1]; }
        }
      }
    }
  }

  /** A non-space character of the input survives the collapse. */
  lemma {:induction false} CollapseKeeps(t: string, k: nat)
    requires k < |t| && !IsSpace(t[k])
    ensures t[k] in CollapseSpaces(t)
    decreases |t|
  {
    if IsSpace(t[0]) {
      var u := TrimStart(t);
      TrimStartRemovesSpace(t);
      assert k >= |t| - |u|;
      assert u[k - (|t| - |u|)] == t[k];
      CollapseKeeps(u, k - (|t| - |u|));
    } else if k > 0 {
      assert t[1..][k - 1] == t[k];
      CollapseKeeps(t[1..], k - 1);
    }
  }

  /** One leading space followed by a non-space is all lstrip removes. */
  lemma TrimStartOfSpaced(t: string)
    requires t != [] && IsSpace(t[0])
    requires |t| == 1 || !IsSpace(t[1])
    ensures TrimStart(t) == t[1..]
  {
  }

  /** Text that is already single-spaced is left alone by the collapse. */
  lemma {:induction false} CollapseSingleSpaced(t: string)
    requires forall i :: 0 <= i < |t| && IsSpace(t[i]) ==> t[i] == ' '
    requires forall i :: 0 <= i < |t| - 1 ==> !(IsSpace(t[i]) && IsSpace(t[i + 1]))
    ensures CollapseSpaces(t) == t
    decreases |t|
  {
    if t != [] {
      var tail := t[1..];
      assert forall i :: 0 <= i < |tail| ==> tail[i] == t[i + 1];
      CollapseSingleSpaced(tail);
      if IsSpace(t[0]) {
        assert tail == [] || !IsSpace(tail[0]) by {
          if tail != [] { assert tail[0] == t[1]; }
        }
        TrimStartOfSpaced(t);
        calc {
          CollapseSpaces(t);
          " " + CollapseSpaces(TrimStart(t));
          " " + CollapseSpaces(tail);
          " " + tail;
          t;
        }
      } else {
        assert t == [t[0]] + tail;
      }
    }
  }

  // ---------------------------------------------------------------------
  // normalize_answer

  /** What normalize_answer returns: lower case, no whitespace at either end,
      every whitespace character a plain space, never two of them in a row. */
  ghost predicate IsNormalAnswer(r: string) {
    && (forall i :: 0 <= i < |r| ==> !IsUpper(r[i]))
    && (r == [] || (!IsSpace(r[0]) && !IsSpace(r[|r| - 1])))
    && (forall i :: 0 <= i < |r| && IsSpace(r[i]) ==> r[i] == ' ')
    && (forall i :: 0 <= i < |r| - 1 ==> !(IsSpace(r[i]) && IsSpace(r[i + 1])))
  }

  /** normalize_answer yields a normal answer that still holds, lower-cased,
      every non-whitespace character of its input. */
  lemma NormalizeAnswerShape(s: string)
    ensures IsNormalAnswer(NormalizeAnswer(s))
    ensures forall i :: 0 <= i < |s| && !IsSpace(s[i]) ==> LowerChar(s[i]) in NormalizeAnswer(s)
  {
    var st := Strip(s);
    var t := Lower(st);
    var r := CollapseSpaces(t);
    StripKeepsNonSpace(s);
    CollapseShape(t);
    assert forall c :: c in t ==> !IsUpper(c);
    forall i | 0 <= i < |r| ensures !IsUpper(r[i]) {
      assert r[i] in r;
    }
    forall i | 0 <= i < |s| && !IsSpace(s[i]) ensures LowerChar(s[i]) in r {
      var k :| 0 <= k < |st| && st[k] == s[i];
      assert t[k] == LowerChar(s[i]);
      CollapseKeeps(t, k);
    }
  }

  /** normalize_answer leaves a normal answer unchanged. */
  lemma NormalFormIsFixed(t: string)
    requires IsNormalAnswer(t)
    ensures NormalizeAnswer(t) == t
  {
    StripTrimmed(t);
    assert Lower(t) == t;
    CollapseSingleSpaced(t);
  }

  /** normalize_answer changes whitespace and case only: its non-whitespace
      characters are the input's, lower-cased, in order and count. */
  lemma NormalizeAnswerKeepsText(s: string)
    ensures Keep(NormalizeAnswer(s), NotSpace) == Lower(Keep(s, NotSpace))
  {
    StripKeepsText(s, NotSpace);
    LowerKeeps(Strip(s), NotSpace);
    CollapseKeepsText(Lower(Strip(s)));
  }

  /** normalize_answer is idempotent. */
  lemma NormalizeAnswerIdempotent(s: string)
    ensures NormalizeAnswer(NormalizeAnswer(s)) == NormalizeAnswer(s)
  {
    NormalizeAnswerShape(s);
    NormalFormIsFixed(NormalizeAnswer(s));
  }

  // ---------------------------------------------------------------------
  // normalize_text

  /** The punctuation filter keeps exactly the word and whitespace characters. */
  lemma {:induction false} DropPunctuationKeeps(s: string)
    ensures var r := DropPunctuation(s);
      |r| <= |s| && forall c :: c in r <==> c in s && (IsWordChar(c) || IsSpace(c))
  {
    if s != [] {
      DropPunctuationKeeps(s[1..]);
      assert forall c :: c in s <==> c == s[0] || c in s[1..];
    }
  }

  /** The punctuation filter keeps the word characters and the whitespace,
      each in order and count. */
  lemma {:induction false} DropPunctuationKeepsText(s: string)
    ensures Keep(DropPunctuation(s), IsWordChar) == Keep(s, IsWordChar)
    ensures Keep(DropPunctuation(s), IsSpace) == Keep(s, IsSpace)
  {
    if s != [] {
      DropPunctuationKeepsText(s[1..]);
      var rest := DropPunctuation(s[1..]);
      assert ([s[0]] + rest)[1..] == rest;
    }
  }

  /** normalize_text keeps the word characters of its input, lower-cased,
      in order and count. */
  lemma NormalizeTextKeepsWords(s: string)
    ensures Keep(NormalizeText(s), IsWordChar) == Lower(Keep(s, IsWordChar))
  {
    LowerKeeps(s, IsWordChar);
    StripKeepsText(Lower(s), IsWordChar);
    DropPunctuationKeepsText(Strip(Lower(s)));
  }

  /** normalize_text yields lower-case text made of word characters and
      whitespace only, and keeps every word character of its input. */
  lemma NormalizeTextShape(s: string)
    ensures forall c :: c in NormalizeText(s) ==> !IsUpper(c) && (IsWordChar(c) || IsSpace(c))
    ensures forall i :: 0 <= i < |s| && IsWordChar(s[i]) ==> LowerChar(s[i]) in NormalizeText(s)
  {
    var l := Lower(s);
    var t := Strip(l);
    StripKeepsNonSpace(l);
    DropPunctuationKeeps(t);
    assert forall c :: c in l ==> !IsUpper(c);
    forall i | 0 <= i < |s| && IsWordChar(s[i]) ensures LowerChar(s[i]) in t {
      assert l[i] == LowerChar(s[i]);
    }
  }

  /** Punctuation removed after the trim can expose a space at the start, so
      normalize_text is not idempotent: "! a" becomes " a", which becomes "a". */
  lemma NormalizeTextNotIdempotent()
    ensures NormalizeText("! a") == " a"
    ensures NormalizeText(" a") == "a"
    ensures NormalizeText(NormalizeText("! a")) != NormalizeText("! a")
  {
  }

  /** Lower-casing is idempotent. */
  lemma LowerTwice(s: string)
    ensures Lower(Lower(s)) == Lower(s)
  {
    assert forall i :: 0 <= i < |s| ==> LowerChar(LowerChar(s[i])) == LowerChar(s[i]);
  }

  /** is_close_enough ignores the case of the player's answer. */
  lemma CloseEnoughIgnoresCase(similar: (string, string) -> bool, userAnswer: string, correctAnswer: string)
    ensures IsCloseEnough(similar, Lower(userAnswer), correctAnswer) == IsCloseEnough(similar, userAnswer, correctAnswer)
  {
    LowerTwice(userAnswer);
  }

  /** Answers that differ only in case, punctuation or surrounding whitespace
      always match. */
  lemma SameTextMatches(similar: (string, string) -> bool, userAnswer: string, correctAnswer: string)
    requires NormalizeText(userAnswer) == NormalizeText(correctAnswer)
    ensures IsCloseEnough(similar, userAnswer, correctAnswer)
  {
  }
}
