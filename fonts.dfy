/** The custom fonts: a display name derived from each font file's name, the CSS format
    derived from its extension, and the loader that walks the font manifest and keeps
    the fonts that load, in manifest order. */
module Fonts {
  import opened Types

  // ---------------------------------------------------------------- characters

  predicate IsUpper(c: char) { 'A' <= c <= 'Z' }

  predicate IsLower(c: char) { 'a' <= c <= 'z' }

  predicate IsAlnum(c: char) { IsUpper(c) || IsLower(c) || '0' <= c <= '9' }

  /** The characters `String.prototype.trim` removes: white space and line terminators. */
  predicate IsJsSpace(c: char)
  {
    || c == ' ' || c == '\t' || c == '\n' || c == '\r' || c == '\U{0B}' || c == '\U{0C}'
    || c == '\U{A0}' || c == '\U{1680}' || ('\U{2000}' <= c <= '\U{200A}')
    || c == '\U{2028}' || c == '\U{2029}' || c == '\U{202F}' || c == '\U{205F}'
    || c == '\U{3000}' || c == '\U{FEFF}'
  }

  function ToLower(c: char): (d: char)
    ensures IsUpper(c) ==> IsLower(d)
    ensures !IsUpper(c) ==> d == c
  {
    if IsUpper(c) then (c as int + 32) as char else c
  }

  /** Lower-cases the ASCII letters; every other character is kept. */
  function Lower(s: string): (r: string)
    ensures |r| == |s|
    ensures forall i :: 0 <= i < |s| ==> r[i] == ToLower(s[i])
  {
    seq(|s|, i requires 0 <= i < |s| => ToLower(s[i]))
  }

  /** `s` ends in `suffix` (given in lower case), ignoring the case of ASCII letters. */
  predicate EndsWithIgnoringCase(s: string, suffix: string)
  {
    |suffix| <= |s| && Lower(s[|s| - |suffix|..]) == suffix
  }

  // ---------------------------------------------------------------- the name rules

  /** `/\.(ttf|otf|woff|woff2)$/i` replaced by nothing: one trailing font extension goes. */
  function StripExtension(s: string): (r: string)
    ensures |r| <= |s| && r == s[..|r|]
    ensures |r| < |s| <==>
      EndsWithIgnoringCase(s, ".ttf") || EndsWithIgnoringCase(s, ".otf")
      || EndsWithIgnoringCase(s, ".woff") || EndsWithIgnoringCase(s, ".woff2")
    ensures |r| < |s| ==> Lower(s[|r|..]) in [".ttf", ".otf", ".woff", ".woff2"]
  {
    if EndsWithIgnoringCase(s, ".woff2") then s[..|s| - 6]
    else if EndsWithIgnoringCase(s, ".woff") then s[..|s| - 5]
    else if EndsWithIgnoringCase(s, ".ttf") || EndsWithIgnoringCase(s, ".otf") then s[..|s| - 4]
    else s
  }

  /** `s` ends in a '-' followed by exactly `k` ASCII letters or digits. */
  predicate EndsWithTag(s: string, k: nat)
  {
    k < |s| && s[|s| - k - 1] == '-' && forall i :: |s| - k <= i < |s| ==> IsAlnum(s[i])
  }

  /** `/-[a-zA-Z0-9]{3,5}$/` replaced by nothing: a trailing tag of 3 to 5 letters or
      digits goes together with its '-'. */
  function StripTag(s: string): (r: string)
    ensures (forall k :: 3 <= k <= 5 ==> !EndsWithTag(s, k)) ==> r == s
    ensures forall k :: 3 <= k <= 5 && EndsWithTag(s, k) ==> r == s[..|s| - k - 1]
    ensures r != s ==> exists k :: 3 <= k <= 5 && EndsWithTag(s, k) && r == s[..|s| - k - 1]
  {
    if EndsWithTag(s, 5) then s[..|s| - 6]
    else if EndsWithTag(s, 4) then s[..|s| - 5]
    else if EndsWithTag(s, 3) then s[..|s| - 4]
    else s
  }

  /** A string's characters with the spaces left out. */
  function Unspaced(s: string): (r: string)
    ensures ' ' !in r
    ensures |r| <= |s|
  {
    if s == [] then [] else (if s[0] == ' ' then [] else [s[0]]) + Unspaced(s[1..])
  }

  lemma {:induction false} UnspacedAppend(a: string, b: string)
    ensures Unspaced(a + b) == Unspaced(a) + Unspaced(b)
    decreases |a|
  {
    if a == [] {
      assert a + b == b;
    } else {
      var head := if a[0] == ' ' then [] else [a[0]];
      assert (a + b)[0] == a[0];
      assert (a + b)[1..] == a[1..] + b;
      calc {
        Unspaced(a + b);
        head + Unspaced(a[1..] + b);
        { UnspacedAppend(a[1..], b); }
        head + (Unspaced(a[1..]) + Unspaced(b));
        { AppendAssoc(head, Unspaced(a[1..]), Unspaced(b)); }
        Unspaced(a) + Unspaced(b);
      }
    }
  }

  /** Inserting a space, or nothing, after a first character leaves the other
      characters as they were. */
  lemma SpliceKeepsLetters(c: char, gap: string, s: string, rest: string)
    requires gap == "" || gap == " "
    requires Unspaced(rest) == Unspaced(s)
    ensures Unspaced([c] + gap + rest) == Unspaced([c] + s)
  {
    UnspacedAppend([c] + gap, rest);
    UnspacedAppend([c], gap);
    UnspacedAppend([c], s);
  }

  /** No lower-case letter is directly followed by an upper-case one. */
  predicate NoCamelBreak(s: string)
  {
    forall i :: 0 <= i < |s| - 1 ==> !(IsLower(s[i]) && IsUpper(s[i + 1]))
  }

  /** No two upper-case letters are directly followed by a lower-case one. */
  predicate NoAcronymBreak(s: string)
  {
    forall i :: 0 <= i < |s| - 2 ==> !(IsUpper(s[i]) && IsUpper(s[i + 1]) && IsLower(s[i + 2]))
  }

  /** The camel condition checked position by position from `i` on; the worked examples
      below use it on literal names. */
  predicate NoCamelBreakFrom(s: string, i: nat)
    decreases |s| - i
  {
    i + 1 >= |s| || (!(IsLower(s[i]) && IsUpper(s[i + 1])) && NoCamelBreakFrom(s, i + 1))
  }

  lemma {:induction false} NoCamelBreakChecked(s: string, i: nat)
    requires NoCamelBreakFrom(s, i)
    ensures forall j :: i <= j < |s| - 1 ==> !(IsLower(s[j]) && IsUpper(s[j + 1]))
    decreases |s| - i
  {
    if i + 1 < |s| {
      NoCamelBreakChecked(s, i + 1);
    }
  }

  /** The acronym condition checked position by position from `i` on. */
  predicate NoAcronymBreakFrom(s: string, i: nat)
    decreases |s| - i
  {
    i + 2 >= |s| || (!(IsUpper(s[i]) && IsUpper(s[i + 1]) && IsLower(s[i + 2])) && NoAcronymBreakFrom(s, i + 1))
  }

  lemma {:induction false} NoAcronymBreakChecked(s: string, i: nat)
    requires NoAcronymBreakFrom(s, i)
    ensures forall j :: i <= j < |s| - 2 ==> !(IsUpper(s[j]) && IsUpper(s[j + 1]) && IsLower(s[j + 2]))
    decreases |s| - i
  {
    if i + 2 < |s| {
      NoAcronymBreakChecked(s, i + 1);
    }
  }

  /** `.replace(/([a-z])([A-Z])/g, '$1 $2')`: a space between every lower-case letter and
      the upper-case letter after it (matches cannot overlap, so each pair is found). */
  function SplitCamel(s: string): string
    decreases |s|
  {
    if |s| < 2 then s
    else [s[0]] + (if IsLower(s[0]) && IsUpper(s[1]) then " " else "") + SplitCamel(s[1..])
  }

  /** The camel rule keeps the first character. */
  lemma SplitCamelHead(s: string)
    requires |s| > 0
    ensures |SplitCamel(s)| > 0 && SplitCamel(s)[0] == s[0]
  {
  }

  lemma {:induction false} SplitCamelKeepsLetters(s: string)
    ensures Unspaced(SplitCamel(s)) == Unspaced(s)
    decreases |s|
  {
    if |s| >= 2 {
      SplitCamelKeepsLetters(s[1..]);
      var gap := if IsLower(s[0]) && IsUpper(s[1]) then " " else "";
      assert s == [s[0]] + s[1..];
      SpliceKeepsLetters(s[0], gap, s[1..], SplitCamel(s[1..]));
    }
  }

  lemma {:induction false} SplitCamelLeavesNoBreak(s: string)
    ensures NoCamelBreak(SplitCamel(s))
    decreases |s|
  {
    if |s| >= 2 {
      var rest := SplitCamel(s[1..]);
      SplitCamelLeavesNoBreak(s[1..]);
      SplitCamelHead(s[1..]);
      var gap := if IsLower(s[0]) && IsUpper(s[1]) then " " else "";
      var r := [s[0]] + gap + rest;
      assert SplitCamel(s) == r;
      forall i | 0 <= i < |r| - 1
        ensures !(IsLower(r[i]) && IsUpper(r[i + 1]))
      {
        if i > |gap| {
          assert r[i] == rest[i - 1 - |gap|] && r[i + 1] == rest[i - |gap|];
        } else if i == 0 && gap == "" {
          assert r[1] == rest[0];
        }
      }
    }
  }

  lemma {:induction false} SplitCamelKeepsUnbroken(s: string)
    requires NoCamelBreak(s)
    ensures SplitCamel(s) == s
    decreases |s|
  {
    if |s| >= 2 {
      assert NoCamelBreak(s[1..]) by {
        forall i | 0 <= i < |s| - 2
          ensures !(IsLower(s[1..][i]) && IsUpper(s[1..][i + 1]))
        {
          assert s[1..][i] == s[i + 1] && s[1..][i + 1] == s[i + 2];
        }
      }
      SplitCamelKeepsUnbroken(s[1..]);
      assert !(IsLower(s[0]) && IsUpper(s[1]));
      assert s == [s[0]] + s[1..];
    }
  }

  /** Splitting inserts only spaces, leaves no lower/upper pair behind, and changes
      nothing in a name without one. */
  lemma SplitCamelSplits(s: string)
    ensures |s| > 0 ==> |SplitCamel(s)| > 0 && SplitCamel(s)[0] == s[0]
    ensures Unspaced(SplitCamel(s)) == Unspaced(s)
    ensures NoCamelBreak(SplitCamel(s))
    ensures NoCamelBreak(s) ==> SplitCamel(s) == s
  {
    if |s| > 0 {
      SplitCamelHead(s);
    }
    SplitCamelKeepsLetters(s);
    SplitCamelLeavesNoBreak(s);
    if NoCamelBreak(s) {
      SplitCamelKeepsUnbroken(s);
    }
  }

  /** `.replace(/([A-Z]+)([A-Z][a-z])/g, '$1 $2')`: a space before the last capital of every
      run of two or more capitals that a lower-case letter follows. */
  function SplitAcronym(s: string): string
    decreases |s|
  {
    if |s| < 3 then s
    else [s[0]] + (if IsUpper(s[0]) && IsUpper(s[1]) && IsLower(s[2]) then " " else "") + SplitAcronym(s[1..])
  }

  /** The acronym rule keeps the first character, and puts the second or a space after it. */
  lemma {:induction false} SplitAcronymHead(s: string)
    requires |s| > 0
    ensures |SplitAcronym(s)| > 0 && SplitAcronym(s)[0] == s[0]
    ensures |s| > 1 ==> |SplitAcronym(s)| > 1 && SplitAcronym(s)[1] in {s[1], ' '}
  {
    if |s| >= 3 {
      SplitAcronymHead(s[1..]);
    }
  }

  lemma {:induction false} SplitAcronymKeepsLetters(s: string)
    ensures Unspaced(SplitAcronym(s)) == Unspaced(s)
    decreases |s|
  {
    if |s| >= 3 {
      SplitAcronymKeepsLetters(s[1..]);
      var gap := if IsUpper(s[0]) && IsUpper(s[1]) && IsLower(s[2]) then " " else "";
      assert s == [s[0]] + s[1..];
      SpliceKeepsLetters(s[0], gap, s[1..], SplitAcronym(s[1..]));
    }
  }

  lemma {:induction false} SplitAcronymLeavesNoBreak(s: string)
    ensures NoAcronymBreak(SplitAcronym(s))
    decreases |s|
  {
    if |s| >= 3 {
      var rest := SplitAcronym(s[1..]);
      SplitAcronymLeavesNoBreak(s[1..]);
      SplitAcronymHead(s[1..]);
      var gap := if IsUpper(s[0]) && IsUpper(s[1]) && IsLower(s[2]) then " " else "";
      var r := [s[0]] + gap + rest;
      assert SplitAcronym(s) == r;
      forall i | 0 <= i < |r| - 2
        ensures !(IsUpper(r[i]) && IsUpper(r[i + 1]) && IsLower(r[i + 2]))
      {
        if i > |gap| {
          assert r[i] == rest[i - 1 - |gap|] && r[i + 1] == rest[i - |gap|] && r[i + 2] == rest[i + 1 - |gap|];
        } else if i == 0 && gap == "" {
          assert r[1] == rest[0] && r[2] == rest[1];
        }
      }
    }
  }

  lemma {:induction false} SplitAcronymKeepsUnbroken(s: string)
    requires NoAcronymBreak(s)
    ensures SplitAcronym(s) == s
    decreases |s|
  {
    if |s| >= 3 {
      assert NoAcronymBreak(s[1..]) by {
        forall i | 0 <= i < |s| - 3
          ensures !(IsUpper(s[1..][i]) && IsUpper(s[1..][i + 1]) && IsLower(s[1..][i + 2]))
        {
          assert s[1..][i] == s[i + 1] && s[1..][i + 1] == s[i + 2] && s[1..][i + 2] == s[i + 3];
        }
      }
      SplitAcronymKeepsUnbroken(s[1..]);
      assert !(IsUpper(s[0]) && IsUpper(s[1]) && IsLower(s[2]));
      assert s == [s[0]] + s[1..];
    }
  }

  /** Splitting inserts only spaces, leaves no capital run glued to a following word, and
      changes nothing in a name without one. */
  lemma SplitAcronymSplits(s: string)
    ensures |s| > 0 ==> |SplitAcronym(s)| > 0 && SplitAcronym(s)[0] == s[0]
    ensures |s| > 1 ==> |SplitAcronym(s)| > 1 && SplitAcronym(s)[1] in {s[1], ' '}
    ensures Unspaced(SplitAcronym(s)) == Unspaced(s)
    ensures NoAcronymBreak(SplitAcronym(s))
    ensures NoAcronymBreak(s) ==> SplitAcronym(s) == s
  {
    if |s| > 0 {
      SplitAcronymHead(s);
    }
    SplitAcronymKeepsLetters(s);
    SplitAcronymLeavesNoBreak(s);
    if NoAcronymBreak(s) {
      SplitAcronymKeepsUnbroken(s);
    }
  }

  /** One step of the acronym rule. */
  lemma SplitAcronymStep(s: string)
    requires |s| >= 3
    ensures SplitAcronym(s) == [s[0]] + (if IsUpper(s[0]) && IsUpper(s[1]) && IsLower(s[2]) then " " else "")
                               + SplitAcronym(s[1..])
  {
  }

  /** Where the acronym rule puts its spaces: wherever two capitals are followed by a
      lower-case letter, one space goes between the two capitals (before the last capital
      of the run), and the text on either side splits on its own. */
  lemma {:induction false} SplitAcronymAtRun(s: string, i: nat)
    requires i + 2 < |s| && IsUpper(s[i]) && IsUpper(s[i + 1]) && IsLower(s[i + 2])
    ensures SplitAcronym(s) == SplitAcronym(s[..i + 1]) + " " + SplitAcronym(s[i + 1..])
    decreases i
  {
    SplitAcronymStep(s);
    if i == 0 {
      assert s[..1] == [s[0]];
    } else {
      var t := s[1..];
      SplitAcronymAtRun(t, i - 1);
      assert t[..i] == s[1..i + 1] && t[i..] == s[i + 1..];
      var gap := if IsUpper(s[0]) && IsUpper(s[1]) && IsLower(s[2]) then " " else "";
      var left, right := SplitAcronym(s[1..i + 1]), SplitAcronym(s[i + 1..]);
      if i == 1 {
        assert gap == "" && s[..2] == [s[0]] + s[1..2];
        assert SplitAcronym(s[1..2]) == s[1..2];
      } else {
        assert s[..i + 1][1..] == s[1..i + 1];
        SplitAcronymStep(s[..i + 1]);
      }
      calc {
        SplitAcronym(s);
        [s[0]] + gap + (left + " " + right);
        { AppendAssoc([s[0]] + gap, left + " ", right); AppendAssoc([s[0]] + gap, left, " "); }
        ([s[0]] + gap + left) + " " + right;
        SplitAcronym(s[..i + 1]) + " " + right;
      }
    }
  }

  /** The camel rule is local: a concatenation splits as its two parts do, with a space at
      the seam exactly when a lower-case letter meets an upper-case one there. */
  lemma {:induction false} SplitCamelAppend(a: string, b: string)
    requires a != [] && b != []
    ensures SplitCamel(a + b) ==
      SplitCamel(a) + (if IsLower(a[|a| - 1]) && IsUpper(b[0]) then " " else "") + SplitCamel(b)
    decreases |a|
  {
    var ab := a + b;
    var seam := if IsLower(a[|a| - 1]) && IsUpper(b[0]) then " " else "";
    if |a| == 1 {
      assert ab[1..] == b;
      SplitCamelStep(ab);
    } else {
      assert ab[1..] == a[1..] + b;
      assert a[1..][|a| - 2] == a[|a| - 1];
      SplitCamelAppend(a[1..], b);
      SplitCamelStep(ab);
      SplitCamelStep(a);
      var head := [a[0]] + (if IsLower(a[0]) && IsUpper(a[1]) then " " else "");
      ConcatAssoc(head, SplitCamel(a[1..]), seam, SplitCamel(b));
    }
  }

  /** One step of the camel rule. */
  lemma SplitCamelStep(s: string)
    requires |s| >= 2
    ensures SplitCamel(s) == [s[0]] + (if IsLower(s[0]) && IsUpper(s[1]) then " " else "") + SplitCamel(s[1..])
  {
  }

  lemma ConcatAssoc(p: string, q: string, r: string, t: string)
    ensures p + (q + r + t) == (p + q) + r + t
  {
  }

  /** Each word break is found once: splitting again changes nothing. */
  lemma {:induction false} SplitCamelIdempotent(s: string)
    ensures SplitCamel(SplitCamel(s)) == SplitCamel(s)
  {
    SplitCamelSplits(s);
    SplitCamelSplits(SplitCamel(s));
  }

  /** `.replace(/Demo$/i, '')`: one trailing `demo`, in any case, goes. */
  function StripDemo(s: string): (r: string)
    ensures EndsWithIgnoringCase(s, "demo") ==> r == s[..|s| - 4]
    ensures !EndsWithIgnoringCase(s, "demo") ==> r == s
  {
    if EndsWithIgnoringCase(s, "demo") then s[..|s| - 4] else s
  }

  /** The first index from `i` on that does not hold white space (`|s|` when none does). */
  function SkipSpaces(s: string, i: nat): (k: nat)
    requires i <= |s|
    ensures i <= k <= |s|
    ensures forall j :: i <= j < k ==> IsJsSpace(s[j])
    ensures k == |s| || !IsJsSpace(s[k])
    decreases |s| - i
  {
    if i < |s| && IsJsSpace(s[i]) then SkipSpaces(s, i + 1) else i
  }

  /** Going back from `j`, the end of the text after the trailing white space, never
      going below `lo`. */
  function SkipSpacesBack(s: string, lo: nat, j: nat): (e: nat)
    requires lo <= j <= |s|
    ensures lo <= e <= j
    ensures forall i :: e <= i < j ==> IsJsSpace(s[i])
    ensures e == lo || !IsJsSpace(s[e - 1])
    decreases j
  {
    if j > lo && IsJsSpace(s[j - 1]) then SkipSpacesBack(s, lo, j - 1) else j
  }

  /** `.trim()`: the middle part left after cutting the white space at both ends. It
      starts and ends with a non-space, and only white space was cut around it. */
  function Trim(s: string): (r: string)
    ensures r == [] || (!IsJsSpace(r[0]) && !IsJsSpace(r[|r| - 1]))
    ensures
      var k := SkipSpaces(s, 0);
      && k + |r| <= |s| && r == s[k..k + |r|]
      && (forall i :: 0 <= i < k ==> IsJsSpace(s[i]))
      && (forall i :: k + |r| <= i < |s| ==> IsJsSpace(s[i]))
  {
    var k := SkipSpaces(s, 0);
    s[k..SkipSpacesBack(s, k, |s|)]
  }

  /** `fileToFontName`: extension, tag, word breaks, a trailing `Demo`, surrounding spaces. */
  function FileToFontName(file: string): (name: string)
    ensures name == [] || (!IsJsSpace(name[0]) && !IsJsSpace(name[|name| - 1]))
  {
    Trim(StripDemo(SplitAcronym(SplitCamel(StripTag(StripExtension(file))))))
  }

  // The three worked examples of the naming rules, stage by stage.

  lemma GreatVibesExtensionGoes()
    ensures StripExtension("GreatVibes-mOBm.ttf") == "GreatVibes-mOBm"
  {
    var s := "GreatVibes-mOBm.ttf";
    assert s[|s| - 4..] == ".ttf";
    assert Lower(".ttf") == ".ttf";
    assert Lower(s[|s| - 5..])[0] == 'm';
    assert Lower(s[|s| - 6..])[0] == 'b';
  }

  lemma GreatVibesTagGoes()
    ensures StripTag("GreatVibes-mOBm") == "GreatVibes"
  {
    var s := "GreatVibes-mOBm";
    assert s[9] == 's' && s[10] == '-';
    assert IsAlnum(s[11]) && IsAlnum(s[12]) && IsAlnum(s[13]) && IsAlnum(s[14]);
    assert s[..10] == "GreatVibes";
  }

  lemma GreatVibesStripped()
    ensures StripTag(StripExtension("GreatVibes-mOBm.ttf")) == "GreatVibes"
  {
    GreatVibesExtensionGoes();
    GreatVibesTagGoes();
  }

  lemma GreatVibesSplitParts()
    ensures SplitCamel("GreatVibes") == SplitCamel("Great") + " " + SplitCamel("Vibes")
  {
    SplitCamelAppend("Great", "Vibes");
    assert "Great" + "Vibes" == "GreatVibes";
  }

  lemma GreatKept()
    ensures SplitCamel("Great") == "Great"
  {
    NoCamelBreakChecked("Great", 0);
    SplitCamelKeepsUnbroken("Great");
  }

  lemma VibesKept()
    ensures SplitCamel("Vibes") == "Vibes"
  {
    NoCamelBreakChecked("Vibes", 0);
    SplitCamelKeepsUnbroken("Vibes");
  }

  lemma GreatVibesWords()
    ensures SplitCamel("Great") + " " + SplitCamel("Vibes") == "Great Vibes"
  {
    GreatKept();
    VibesKept();
    assert SplitCamel("Great") + " " + SplitCamel("Vibes") == "Great" + " " + "Vibes";
    assert "Great" + " " + "Vibes" == "Great Vibes";
  }

  lemma GreatVibesSplit()
    ensures SplitCamel("GreatVibes") == "Great Vibes"
  {
    GreatVibesSplitParts();
    GreatVibesWords();
  }

  lemma GreatVibesNoAcronym()
    ensures SplitAcronym("Great Vibes") == "Great Vibes"
  {
    GreatVibesHasNoAcronym();
    SplitAcronymKeepsUnbroken("Great Vibes");
  }

  lemma GreatVibesHasNoAcronym()
    ensures NoAcronymBreak("Great Vibes")
  {
    NoAcronymBreakChecked("Great Vibes", 0);
  }

  lemma GreatVibesNoDemo()
    ensures StripDemo("Great Vibes") == "Great Vibes"
  {
    var t := "Great Vibes";
    assert Lower(t[|t| - 4..])[0] == 'i';
  }

  lemma GreatVibesTrimmed()
    ensures Trim("Great Vibes") == "Great Vibes"
  {
  }

  /** The tag and the extension go, and the two words are split. */
  lemma GreatVibesExample()
    ensures FileToFontName("GreatVibes-mOBm.ttf") == "Great Vibes"
  {
    GreatVibesStripped();
    GreatVibesSplit();
    GreatVibesNoAcronym();
    GreatVibesNoDemo();
    GreatVibesTrimmed();
  }

  lemma FontKept()
    ensures SplitAcronym("Font") == "Font"
  {
  }

  lemma CFontSplit()
    ensures SplitAcronym("CFont") == "C Font"
  {
    FontKept();
  }

  lemma BCFontSplit()
    ensures SplitAcronym("BCFont") == "BC Font"
  {
    CFontSplit();
  }

  lemma ABCFontSplit()
    ensures SplitAcronym("ABCFont") == "ABC Font"
  {
    BCFontSplit();
  }

  lemma ABCFontNoExtension()
    ensures StripExtension("ABCFont") == "ABCFont"
  {
    var s := "ABCFont";
    assert Lower(s[|s| - 4..])[0] == 'f';
    assert Lower(s[|s| - 5..])[0] == 'c';
    assert Lower(s[|s| - 6..])[0] == 'b';
  }

  lemma ABCFontNoTag()
    ensures StripTag("ABCFont") == "ABCFont"
  {
  }

  lemma ABCFontNoCamel()
    ensures SplitCamel("ABCFont") == "ABCFont"
  {
    NoCamelBreakChecked("ABCFont", 0);
    SplitCamelKeepsUnbroken("ABCFont");
  }

  lemma ABCFontFinished()
    ensures Trim(StripDemo("ABC Font")) == "ABC Font"
  {
    var t := "ABC Font";
    assert Lower(t[|t| - 4..])[0] == 'f';
    assert Trim(t) == t;
  }

  /** A run of capitals is split from the word that follows it. */
  lemma ABCFontExample()
    ensures FileToFontName("ABCFont") == "ABC Font"
  {
    ABCFontNoExtension();
    ABCFontNoTag();
    ABCFontNoCamel();
    ABCFontSplit();
    ABCFontFinished();
  }

  lemma MyFontDemoExtensionGoes()
    ensures StripExtension("MyFontDemo.ttf") == "MyFontDemo"
  {
    var s := "MyFontDemo.ttf";
    assert s[|s| - 4..] == ".ttf";
    assert Lower(".ttf") == ".ttf";
    assert Lower(s[|s| - 5..])[0] == 'o';
    assert Lower(s[|s| - 6..])[0] == 'm';
  }

  lemma MyFontDemoNoTag()
    ensures StripTag("MyFontDemo") == "MyFontDemo"
  {
    var s := "MyFontDemo";
    assert s[4] == 'n' && s[5] == 't' && s[6] == 'D';
  }

  lemma MyFontDemoStripped()
    ensures StripTag(StripExtension("MyFontDemo.ttf")) == "MyFontDemo"
  {
    MyFontDemoExtensionGoes();
    MyFontDemoNoTag();
  }

  lemma MyKept()
    ensures SplitCamel("My") == "My"
  {
  }

  lemma FontCamelKept()
    ensures SplitCamel("Font") == "Font"
  {
    NoCamelBreakChecked("Font", 0);
    SplitCamelKeepsUnbroken("Font");
  }

  lemma DemoKept()
    ensures SplitCamel("Demo") == "Demo"
  {
    NoCamelBreakChecked("Demo", 0);
    SplitCamelKeepsUnbroken("Demo");
  }

  lemma MyFontSplitParts()
    ensures SplitCamel("MyFont") == SplitCamel("My") + " " + SplitCamel("Font")
  {
    SplitCamelAppend("My", "Font");
    assert "My" + "Font" == "MyFont";
  }

  lemma MyFontSplit()
    ensures SplitCamel("MyFont") == "My Font"
  {
    MyFontSplitParts();
    MyKept();
    FontCamelKept();
  }

  lemma MyFontDemoSplitParts()
    ensures SplitCamel("MyFontDemo") == SplitCamel("MyFont") + " " + SplitCamel("Demo")
  {
    SplitCamelAppend("MyFont", "Demo");
    assert "MyFont" + "Demo" == "MyFontDemo";
  }

  lemma MyFontDemoSplit()
    ensures SplitCamel("MyFontDemo") == "My Font Demo"
  {
    MyFontDemoSplitParts();
    MyFontSplit();
    DemoKept();
    MyFontDemoJoined();
  }

  lemma MyFontDemoJoined()
    ensures "My Font" + " " + "Demo" == "My Font Demo"
  {
  }

  lemma MyFontDemoNoAcronym()
    ensures SplitAcronym("My Font Demo") == "My Font Demo"
  {
    MyFontDemoHasNoAcronym();
    SplitAcronymKeepsUnbroken("My Font Demo");
  }

  lemma MyFontDemoHasNoAcronym()
    ensures NoAcronymBreak("My Font Demo")
  {
    NoAcronymBreakChecked("My Font Demo", 0);
  }

  lemma MyFontDemoDropsDemo()
    ensures StripDemo("My Font Demo") == "My Font "
  {
    var t := "My Font Demo";
    assert t[|t| - 4..] == "Demo";
    assert Lower("Demo") == "demo";
  }

  lemma MyFontTrimmed()
    ensures Trim("My Font ") == "My Font"
  {
    var s := "My Font ";
    assert SkipSpacesBack(s, 0, 7) == 7;
    assert s[0..7] == "My Font";
  }

  /** A trailing `Demo` goes, and so does the space left before it. */
  lemma MyFontDemoExample()
    ensures FileToFontName("MyFontDemo.ttf") == "My Font"
  {
    MyFontDemoStripped();
    MyFontDemoSplit();
    MyFontDemoNoAcronym();
    MyFontDemoDropsDemo();
    MyFontTrimmed();
  }

  /** The two word-break rules only insert spaces: apart from spaces, the name keeps
      every character of what is left of the file name, in order. */
  lemma {:induction false} SplittingKeepsLetters(s: string)
    ensures Unspaced(SplitAcronym(SplitCamel(s))) == Unspaced(s)
  {
    SplitCamelSplits(s);
    SplitAcronymSplits(SplitCamel(s));
  }

  // ---------------------------------------------------------------- the format

  /** `filename.split('.').pop()`: the text after the last dot, or the whole name. */
  function LastSegment(s: string): (r: string)
    ensures '.' !in r
    ensures '.' !in s ==> r == s
    ensures |r| <= |s| && r == s[|s| - |r|..]
    ensures |r| < |s| ==> s[|s| - |r| - 1] == '.'
  {
    match LastDot(s)
    case None => s
    case Some(i) => s[i + 1..]
  }

  /** The format table: the four font extensions, anything else read as TrueType. */
  function FormatOf(ext: string): (format: string)
    ensures format in ["truetype", "opentype", "woff", "woff2"]
  {
    if ext == "ttf" then "truetype"
    else if ext == "otf" then "opentype"
    else if ext == "woff" then "woff"
    else if ext == "woff2" then "woff2"
    else "truetype"
  }

  /** `getFontFormat`: the lower-cased text after the last dot, through the table. */
  function FontFormat(file: string): (format: string)
    ensures format in ["truetype", "opentype", "woff", "woff2"]
  {
    FormatOf(Lower(LastSegment(file)))
  }

  /** The format depends only on the extension, in any case, whatever the base name. */
  lemma {:induction false} FormatOfExtension(base: string, ext: string)
    requires '.' !in ext
    ensures FontFormat(base + "." + ext) == FormatOf(Lower(ext))
  {
    var name := base + "." + ext;
    var i := LastDot(name).value;
    assert name[|base|] == '.';
    assert name[..|base|] == base;
    assert name[|base| + 1..] == ext;
  }

  lemma FormatExamples()
    ensures FormatOf(Lower("TTF")) == "truetype" && FormatOf(Lower("otf")) == "opentype"
    ensures FormatOf(Lower("Woff")) == "woff" && FormatOf(Lower("WOFF2")) == "woff2"
    ensures FormatOf(Lower("eot")) == "truetype"
  {
    LowerTTF();
    LowerOtf();
    LowerWoff();
    LowerWOFF2();
  }

  lemma LowerTTF()
    ensures Lower("TTF") == "ttf"
  {
  }

  lemma LowerOtf()
    ensures Lower("otf") == "otf"
  {
  }

  lemma LowerWoff()
    ensures Lower("Woff") == "woff"
  {
  }

  lemma LowerWOFF2()
    ensures Lower("WOFF2") == "woff2"
  {
  }

  // ---------------------------------------------------------------- loading

  /** The custom font a manifest file yields: named, and given as its family, by the
      naming rule (the hook uses `FileToFontName`; the loader's lemmas hold for any
      rule). */
  function FontOf(naming: string -> string, file: string): (f: FontInfo)
    ensures f.name == f.family == naming(file) && f.file == file
  {
    FontInfo(naming(file), naming(file), file)
  }

  /** The fonts that load, in manifest order. */
  function LoadedFonts(naming: string -> string, files: seq<string>, loads: seq<bool>): (fonts: seq<FontInfo>)
    requires |loads| == |files|
    ensures |fonts| <= |files|
    decreases |files|
  {
    if files == [] then []
    else
      var n := |files| - 1;
      LoadedFonts(naming, files[..n], loads[..n]) + (if loads[n] then [FontOf(naming, files[n])] else [])
  }

  /** Every font that loads is offered. */
  lemma {:induction false} LoadedFontsKeepSuccesses(naming: string -> string, files: seq<string>, loads: seq<bool>)
    requires |loads| == |files|
    ensures forall j :: 0 <= j < |files| && loads[j] ==>
      FontOf(naming, files[j]) in LoadedFonts(naming, files, loads)
    decreases |files|
  {
    if files != [] {
      var n := |files| - 1;
      var before := LoadedFonts(naming, files[..n], loads[..n]);
      LoadedFontsKeepSuccesses(naming, files[..n], loads[..n]);
      var all := LoadedFonts(naming, files, loads);
      assert all == before + (if loads[n] then [FontOf(naming, files[n])] else []);
      forall j | 0 <= j < |files| && loads[j]
        ensures FontOf(naming, files[j]) in all
      {
        if j < n {
          assert loads[..n][j] && files[..n][j] == files[j];
          assert FontOf(naming, files[j]) in before;
        } else {
          assert all[|before|] == FontOf(naming, files[n]);
        }
      }
    }
  }

  /** Every font offered loaded, and is named after its file. */
  lemma {:induction false} LoadedFontsAreSuccesses(naming: string -> string, files: seq<string>, loads: seq<bool>)
    requires |loads| == |files|
    ensures forall f :: f in LoadedFonts(naming, files, loads) ==>
      exists j :: 0 <= j < |files| && loads[j] && f == FontOf(naming, files[j])
    decreases |files|
  {
    if files != [] {
      var n := |files| - 1;
      var before := LoadedFonts(naming, files[..n], loads[..n]);
      LoadedFontsAreSuccesses(naming, files[..n], loads[..n]);
      var all := LoadedFonts(naming, files, loads);
      assert all == before + (if loads[n] then [FontOf(naming, files[n])] else []);
      forall f | f in all
        ensures exists j :: 0 <= j < |files| && loads[j] && f == FontOf(naming, files[j])
      {
        if f in before {
          var j :| 0 <= j < n && loads[..n][j] && f == FontOf(naming, files[..n][j]);
          assert loads[j] && files[j] == files[..n][j];
        } else {
          assert loads[n] && f == FontOf(naming, files[n]);
        }
      }
    }
  }

  /** When every font loads, the fonts are the manifest in order. */
  lemma {:induction false} AllFontsLoad(naming: string -> string, files: seq<string>, loads: seq<bool>)
    requires |loads| == |files|
    requires forall j :: 0 <= j < |files| ==> loads[j]
    ensures |LoadedFonts(naming, files, loads)| == |files|
    ensures forall j :: 0 <= j < |files| ==> LoadedFonts(naming, files, loads)[j] == FontOf(naming, files[j])
    decreases |files|
  {
    if files != [] {
      var n := |files| - 1;
      var before := LoadedFonts(naming, files[..n], loads[..n]);
      assert forall j :: 0 <= j < n ==> loads[..n][j] == loads[j];
      AllFontsLoad(naming, files[..n], loads[..n]);
      assert loads[n];
      var all := LoadedFonts(naming, files, loads);
      assert all == before + [FontOf(naming, files[n])];
      forall j | 0 <= j < |files|
        ensures all[j] == FontOf(naming, files[j])
      {
        if j < n {
          assert all[j] == before[j] && files[..n][j] == files[j];
        }
      }
    }
  }

  /** When no font loads, there are none. */
  lemma {:induction false} NoFontLoads(naming: string -> string, files: seq<string>, loads: seq<bool>)
    requires |loads| == |files|
    requires forall j :: 0 <= j < |files| ==> !loads[j]
    ensures LoadedFonts(naming, files, loads) == []
    decreases |files|
  {
    if files != [] {
      var n := |files| - 1;
      assert forall j :: 0 <= j < n ==> loads[..n][j] == loads[j];
      NoFontLoads(naming, files[..n], loads[..n]);
      assert !loads[n];
    }
  }

  /** What the manifest request gives: the list of font files, a response that is not
      OK, or a thrown value (an `Error` with its message, or anything else). */
  datatype Manifest = Fetched(files: seq<string>) | NotOk | Threw(message: Option<string>)

  /** The message a failed manifest request leaves in `error`. */
  function ManifestError(m: Manifest): (message: string)
    requires !m.Fetched?
    ensures m.Threw? && m.message.Some? ==> message == m.message.value
    ensures !(m.Threw? && m.message.Some?) ==> message != ""
  {
    match m
    case NotOk => "Could not load fonts.json"
    case Threw(Some(text)) => text
    case Threw(None) => "Failed to load fonts"
  }

  /** The state of the fonts hook. */
  class DynamicFonts {
    var fonts: seq<FontInfo>
    var loading: bool
    var error: Option<string>

    constructor ()
      ensures fonts == [] && loading && error == None
    {
      fonts, loading, error := [], true, None;
    }

    /** `loadFonts`: walks the manifest, keeps each font that loads and skips each that
        fails; a failed manifest leaves no fonts and sets the error. Loading ends either
        way. */
    method Load(manifest: Manifest, loads: seq<bool>)
      requires manifest.Fetched? ==> |loads| == |manifest.files|
      requires fonts == [] && error == None
      modifies this
      ensures !loading
      ensures manifest.Fetched? ==> fonts == LoadedFonts(FileToFontName, manifest.files, loads) && error == None
      ensures !manifest.Fetched? ==> fonts == [] && error == Some(ManifestError(manifest))
    {
      if !manifest.Fetched? {
        error := Some(ManifestError(manifest));
        loading := false;
        return;
      }
      var files := manifest.files;
      var loaded: seq<FontInfo> := [];
      for i := 0 to |files|
        invariant loaded == LoadedFonts(FileToFontName, files[..i], loads[..i])
      {
        assert files[..i + 1][..i] == files[..i] && loads[..i + 1][..i] == loads[..i];
        if loads[i] {
          var family := FileToFontName(files[i]);
          loaded := loaded + [FontInfo(family, family, files[i])];
        }
      }
      assert files[..|files|] == files && loads[..|files|] == loads;
      fonts := loaded;
      loading := false;
    }
  }
}
