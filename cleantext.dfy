/**
 * `clean_str2`, the text normaliser applied to question titles and bodies: characters outside
 * `[A-Za-z0-9(),!?'`]` become spaces, six contraction rewrites drop an apostrophe, runs of two
 * or more whitespace characters become one space, `string.punctuation` is deleted, and the
 * result is stripped and lower-cased.
 */
module CleanText {
  import opened Text

  predicate IsUpper(c: char) { 'A' <= c <= 'Z' }

  predicate IsLower(c: char) { 'a' <= c <= 'z' }

  /** An ASCII letter or digit: what the character class `A-Za-z0-9` names. */
  predicate IsAlnum(c: char) { IsUpper(c) || IsLower(c) || IsDigit(c) }

  /** The characters the first substitution keeps: `[A-Za-z0-9(),!?'`]`. */
  predicate Kept(c: char)
  {
    IsAlnum(c) || c == '(' || c == ')' || c == ',' || c == '!' || c == '?' || c == '\'' || c == '`'
  }

  /**
   * Python's `string.punctuation`, the 32 ASCII punctuation characters
   * `!"#$%&'()*+,-./:;<=>?@[\]^_`{|}~`: the printable ASCII characters that are neither
   * letters, digits nor the space.
   */
  predicate IsPunctuation(c: char)
  {
    '!' <= c <= '/' || ':' <= c <= '@' || '[' <= c <= '`' || '{' <= c <= '~'
  }

  predicate NotPunctuation(c: char) { !IsPunctuation(c) }

  predicate NotApostrophe(c: char) { c != '\'' }

  /** The characters `s` keeps, in order. */
  function Filter(p: char -> bool, s: string): string
  {
    if |s| == 0 then [] else (if p(s[0]) then [s[0]] else []) + Filter(p, s[1..])
  }

  /** Every character of `s` satisfies `p`. */
  predicate All(p: char -> bool, s: string)
  {
    forall k :: 0 <= k < |s| ==> p(s[k])
  }

  /** `re.sub(r"[^A-Za-z0-9(),!?\'\`]", " ", s)`. */
  function Substitute(s: string): string
  {
    if |s| == 0 then [] else [if Kept(s[0]) then s[0] else ' '] + Substitute(s[1..])
  }

  /**
   * `re.sub(pat, rep, s)` for a pattern without metacharacters: the occurrences of `pat`
   * found left to right, none overlapping the previous one, each replaced by `rep`.
   */
  function ReplaceAll(s: string, pat: string, rep: string): string
    requires |pat| > 0
    decreases |s|
  {
    if |s| < |pat| then s
    else if s[..|pat|] == pat then rep + ReplaceAll(s[|pat|..], pat, rep)
    else [s[0]] + ReplaceAll(s[1..], pat, rep)
  }

  /** The length of the whitespace run at the front of `s`. */
  function SpaceRun(s: string): (n: nat)
    ensures n <= |s|
  {
    if |s| > 0 && IsSpace(s[0]) then 1 + SpaceRun(s[1..]) else 0
  }

  /**
   * `re.sub(r"\s{2,}", " ", s)`: every run of at least two whitespace characters becomes a
   * single space; a lone whitespace character stays as it is.
   */
  function Collapse(s: string): string
    decreases |s|
  {
    if |s| == 0 then []
    else if SpaceRun(s) >= 2 then " " + Collapse(s[SpaceRun(s)..])
    else [s[0]] + Collapse(s[1..])
  }

  /** `s.translate(str.maketrans("", "", string.punctuation))`. */
  function DropPunctuation(s: string): string
  {
    Filter(NotPunctuation, s)
  }

  function LowerChar(c: char): char
  {
    if IsUpper(c) then (c as int + 32) as char else c
  }

  /** `s.lower()` on the ASCII letters, the only letters left at that point. */
  function Lower(s: string): string
  {
    if |s| == 0 then [] else [LowerChar(s[0])] + Lower(s[1..])
  }

  /** The six contraction rewrites `(pattern, replacement)`, in the order the code applies them. */
  const Rules: seq<(string, string)> := [("'s", "s"), ("'ve", "ve"), ("n't", "nt"), ("'re", "re"), ("'d", "d"), ("'ll", "ll")]

  predicate NonEmptyPatterns(rules: seq<(string, string)>)
  {
    forall i :: 0 <= i < |rules| ==> |rules[i].0| > 0
  }

  /** `re.sub` with each rule in turn. */
  function Rewrite(s: string, rules: seq<(string, string)>): string
    requires NonEmptyPatterns(rules)
    decreases |rules|
  {
    if |rules| == 0 then s else Rewrite(ReplaceAll(s, rules[0].0, rules[0].1), rules[1..])
  }

  function Contractions(s: string): string
  {
    Rewrite(s, Rules)
  }

  /** `clean_str2(s)`. */
  function CleanStr2(s: string): string
  {
    Lower(Strip(DropPunctuation(Collapse(Contractions(Substitute(s))))))
  }

  // ---------------------------------------------------------------------------------------
  // Filtering through the steps

  lemma {:induction false} FilterConcat(p: char -> bool, a: string, b: string)
    ensures Filter(p, a + b) == Filter(p, a) + Filter(p, b)
    decreases |a|
  {
    if |a| > 0 {
      assert (a + b)[1..] == a[1..] + b;
      FilterConcat(p, a[1..], b);
    } else {
      assert a + b == b;
    }
  }

  lemma {:induction false} FilterNone(p: char -> bool, s: string)
    requires forall k :: 0 <= k < |s| ==> !p(s[k])
    ensures Filter(p, s) == []
    decreases |s|
  {
    if |s| > 0 {
      FilterNone(p, s[1..]);
    }
  }

  lemma {:induction false} FilterAll(p: char -> bool, s: string)
    requires All(p, s)
    ensures Filter(p, s) == s
    decreases |s|
  {
    if |s| > 0 {
      FilterAll(p, s[1..]);
      assert [s[0]] + s[1..] == s;
    }
  }

  /** What `Filter(p, ·)` keeps satisfies `p`. */
  lemma {:induction false} FilterKeeps(p: char -> bool, s: string)
    ensures All(p, Filter(p, s))
    decreases |s|
  {
    if |s| > 0 {
      FilterKeeps(p, s[1..]);
    }
  }

  /** A character that `p` keeps is never turned into a space by the first substitution. */
  lemma {:induction false} SubstituteFilter(p: char -> bool, s: string)
    requires !p(' ') && forall c :: !Kept(c) ==> !p(c)
    ensures Filter(p, Substitute(s)) == Filter(p, s)
    decreases |s|
  {
    if |s| > 0 {
      SubstituteFilter(p, s[1..]);
    }
  }

  /** A rewrite whose pattern and replacement agree on what `p` keeps leaves that unchanged. */
  lemma {:induction false} ReplaceAllFilter(p: char -> bool, s: string, pat: string, rep: string)
    requires |pat| > 0 && Filter(p, pat) == Filter(p, rep)
    ensures Filter(p, ReplaceAll(s, pat, rep)) == Filter(p, s)
    decreases |s|
  {
    if |s| >= |pat| {
      if s[..|pat|] == pat {
        ReplaceAllFilter(p, s[|pat|..], pat, rep);
        FilterConcat(p, rep, ReplaceAll(s[|pat|..], pat, rep));
        assert s == pat + s[|pat|..];
        FilterConcat(p, pat, s[|pat|..]);
      } else {
        ReplaceAllFilter(p, s[1..], pat, rep);
        FilterConcat(p, [s[0]], ReplaceAll(s[1..], pat, rep));
      }
    }
  }

  /** The whitespace run at the front of `s` is whitespace. */
  lemma {:induction false} SpaceRunSpaces(s: string)
    ensures forall k :: 0 <= k < SpaceRun(s) ==> IsSpace(s[k])
    decreases |s|
  {
    if |s| > 0 && IsSpace(s[0]) {
      SpaceRunSpaces(s[1..]);
    }
  }

  /** Collapsing whitespace changes nothing that `p` keeps, when `p` keeps no whitespace. */
  lemma {:induction false} CollapseFilter(p: char -> bool, s: string)
    requires forall c :: IsSpace(c) ==> !p(c)
    ensures Filter(p, Collapse(s)) == Filter(p, s)
    decreases |s|
  {
    if |s| > 0 {
      var n := SpaceRun(s);
      if n >= 2 {
        CollapseFilter(p, s[n..]);
        SpaceRunSpaces(s);
        FilterNone(p, s[..n]);
        assert s == s[..n] + s[n..];
        FilterConcat(p, s[..n], s[n..]);
        FilterConcat(p, " ", Collapse(s[n..]));
      } else {
        CollapseFilter(p, s[1..]);
      }
    }
  }

  /** Stripping changes nothing that `p` keeps, when `p` keeps no whitespace. */
  lemma StripFilter(p: char -> bool, s: string)
    requires forall c :: IsSpace(c) ==> !p(c)
    ensures Filter(p, Strip(s)) == Filter(p, s)
  {
    var r, i := Strip(s), |s| - |StripLeft(s)|;
    StripSlice(s);
    assert s == s[..i] + (r + s[i + |r|..]);
    FilterConcat(p, s[..i], r + s[i + |r|..]);
    FilterConcat(p, r, s[i + |r|..]);
    FilterNone(p, s[..i]);
    FilterNone(p, s[i + |r|..]);
  }

  /** Filtering out punctuation changes nothing that `p` keeps, when `p` keeps no punctuation. */
  lemma {:induction false} FilterFilter(p: char -> bool, q: char -> bool, s: string)
    requires forall c :: p(c) ==> q(c)
    ensures Filter(p, Filter(q, s)) == Filter(p, s)
    decreases |s|
  {
    if |s| > 0 {
      FilterFilter(p, q, s[1..]);
      FilterConcat(p, if q(s[0]) then [s[0]] else [], Filter(q, s[1..]));
    }
  }

  /** Lower-casing commutes with keeping the letters and digits. */
  lemma {:induction false} LowerAlnums(s: string)
    ensures Filter(IsAlnum, Lower(s)) == Lower(Filter(IsAlnum, s))
    decreases |s|
  {
    if |s| > 0 {
      LowerAlnums(s[1..]);
      LowerConcat(if IsAlnum(s[0]) then [s[0]] else [], Filter(IsAlnum, s[1..]));
    }
  }

  lemma {:induction false} LowerConcat(a: string, b: string)
    ensures Lower(a + b) == Lower(a) + Lower(b)
    decreases |a|
  {
    if |a| > 0 {
      assert (a + b)[1..] == a[1..] + b;
      LowerConcat(a[1..], b);
    } else {
      assert a + b == b;
    }
  }

  // ---------------------------------------------------------------------------------------
  // What `clean_str2` promises

  /** Rewriting with rules that agree with their patterns on what `p` keeps leaves that unchanged. */
  lemma {:induction false} RewriteFilter(p: char -> bool, s: string, rules: seq<(string, string)>)
    requires NonEmptyPatterns(rules)
    requires forall i :: 0 <= i < |rules| ==> Filter(p, rules[i].0) == Filter(p, rules[i].1)
    ensures Filter(p, Rewrite(s, rules)) == Filter(p, s)
    decreases |rules|
  {
    if |rules| > 0 {
      ReplaceAllFilter(p, s, rules[0].0, rules[0].1);
      RewriteFilter(p, ReplaceAll(s, rules[0].0, rules[0].1), rules[1..]);
    }
  }

  /** Each contraction replacement is its pattern without the apostrophe, and holds only letters. */
  lemma RulesDropApostrophe()
    ensures forall i :: 0 <= i < |Rules| ==> Filter(NotApostrophe, Rules[i].0) == Rules[i].1
    ensures forall i :: 0 <= i < |Rules| ==> All(IsAlnum, Rules[i].1)
  {
    forall i | 0 <= i < |Rules|
      ensures Filter(NotApostrophe, Rules[i].0) == Rules[i].1
    {
      var (pat, rep) := Rules[i];
      if pat[0] == '\'' {
        assert pat == "'" + rep;
        FilterConcat(NotApostrophe, "'", rep);
      } else {
        assert pat == "n" + ("'" + "t");
        FilterConcat(NotApostrophe, "n", "'" + "t");
        FilterConcat(NotApostrophe, "'", "t");
      }
      FilterAll(NotApostrophe, rep);
    }
  }

  /** The contraction rewrites only delete apostrophes: every other character stays, in order. */
  lemma ContractionsDropApostrophes(s: string)
    ensures Filter(NotApostrophe, Contractions(s)) == Filter(NotApostrophe, s)
  {
    RulesDropApostrophe();
    forall i | 0 <= i < |Rules|
      ensures Filter(NotApostrophe, Rules[i].0) == Filter(NotApostrophe, Rules[i].1)
    {
      FilterAll(NotApostrophe, Rules[i].1);
    }
    RewriteFilter(NotApostrophe, s, Rules);
  }

  /** So they keep every letter and digit. */
  lemma ContractionsAlnums(s: string)
    ensures Filter(IsAlnum, Contractions(s)) == Filter(IsAlnum, s)
  {
    RulesDropApostrophe();
    forall i | 0 <= i < |Rules|
      ensures Filter(IsAlnum, Rules[i].0) == Filter(IsAlnum, Rules[i].1)
    {
      FilterFilter(IsAlnum, NotApostrophe, Rules[i].0);
    }
    RewriteFilter(IsAlnum, s, Rules);
  }

  /** The letters and digits of the input survive, in order, lower-cased; nothing else does. */
  lemma KeepsAlnums(s: string)
    ensures Filter(IsAlnum, CleanStr2(s)) == Lower(Filter(IsAlnum, s))
  {
    var s1 := Substitute(s);
    var s2 := Contractions(s1);
    var s3 := Collapse(s2);
    var s4 := DropPunctuation(s3);
    SubstituteFilter(IsAlnum, s);
    ContractionsAlnums(s1);
    CollapseFilter(IsAlnum, s2);
    FilterFilter(IsAlnum, NotPunctuation, s3);
    StripFilter(IsAlnum, s4);
    LowerAlnums(Strip(s4));
  }

  // ---------------------------------------------------------------------------------------
  // The characters of the result

  /** After the first substitution: a kept character or a space. */
  predicate SubstitutedChar(c: char) { Kept(c) || c == ' ' }

  /** After punctuation is deleted: a letter, a digit or a space. */
  predicate AlnumOrSpace(c: char) { IsAlnum(c) || c == ' ' }

  /** What `clean_str2` may return: a lower-case ASCII letter, a digit or a space. */
  predicate CleanChar(c: char) { IsLower(c) || IsDigit(c) || c == ' ' }

  lemma {:induction false} SubstituteChars(s: string)
    ensures All(SubstitutedChar, Substitute(s))
    decreases |s|
  {
    if |s| > 0 {
      SubstituteChars(s[1..]);
    }
  }

  lemma {:induction false} ReplaceAllWithin(q: char -> bool, s: string, pat: string, rep: string)
    requires |pat| > 0 && All(q, s) && All(q, rep)
    ensures All(q, ReplaceAll(s, pat, rep))
    decreases |s|
  {
    if |s| >= |pat| {
      if s[..|pat|] == pat {
        assert All(q, s[|pat|..]);
        ReplaceAllWithin(q, s[|pat|..], pat, rep);
      } else {
        assert All(q, s[1..]);
        ReplaceAllWithin(q, s[1..], pat, rep);
      }
    }
  }

  lemma {:induction false} CollapseWithin(q: char -> bool, s: string)
    requires All(q, s) && q(' ')
    ensures All(q, Collapse(s))
    decreases |s|
  {
    if |s| > 0 {
      var n := SpaceRun(s);
      if n >= 2 {
        assert All(q, s[n..]);
        CollapseWithin(q, s[n..]);
      } else {
        assert All(q, s[1..]);
        CollapseWithin(q, s[1..]);
      }
    }
  }

  lemma {:induction false} FilterWithin(p: char -> bool, q: char -> bool, s: string)
    requires All(q, s)
    ensures All(q, Filter(p, s))
    decreases |s|
  {
    if |s| > 0 {
      assert All(q, s[1..]);
      FilterWithin(p, q, s[1..]);
    }
  }

  /** `Lower` maps each character on its own. */
  lemma {:induction false} LowerAt(s: string)
    ensures |Lower(s)| == |s| && forall k :: 0 <= k < |s| ==> Lower(s)[k] == LowerChar(s[k])
    decreases |s|
  {
    if |s| > 0 {
      LowerAt(s[1..]);
    }
  }

  lemma {:induction false} RewriteWithin(q: char -> bool, s: string, rules: seq<(string, string)>)
    requires NonEmptyPatterns(rules) && All(q, s)
    requires forall i :: 0 <= i < |rules| ==> All(q, rules[i].1)
    ensures All(q, Rewrite(s, rules))
    decreases |rules|
  {
    if |rules| > 0 {
      ReplaceAllWithin(q, s, rules[0].0, rules[0].1);
      RewriteWithin(q, ReplaceAll(s, rules[0].0, rules[0].1), rules[1..]);
    }
  }

  /** Before the strip, only letters, digits and spaces are left. */
  lemma StepsChars(s: string)
    ensures All(AlnumOrSpace, DropPunctuation(Collapse(Contractions(Substitute(s)))))
  {
    var s2 := Contractions(Substitute(s));
    var s3 := Collapse(s2);
    var s4 := DropPunctuation(s3);
    SubstituteChars(s);
    RulesDropApostrophe();
    RewriteWithin(SubstitutedChar, Substitute(s), Rules);
    CollapseWithin(SubstitutedChar, s2);
    FilterWithin(NotPunctuation, SubstitutedChar, s3);
    FilterKeeps(NotPunctuation, s3);
    forall k | 0 <= k < |s4|
      ensures AlnumOrSpace(s4[k])
    {
      assert SubstitutedChar(s4[k]) && NotPunctuation(s4[k]);
    }
  }

  /** The strip keeps a slice, so it keeps the character class, and leaves no space at the ends. */
  lemma StripChars(s: string)
    requires All(AlnumOrSpace, s)
    ensures All(AlnumOrSpace, Strip(s))
    ensures var r := Strip(s); |r| > 0 ==> r[0] != ' ' && r[|r| - 1] != ' '
  {
    var r, i := Strip(s), |s| - |StripLeft(s)|;
    StripSlice(s);
    forall k | 0 <= k < |r|
      ensures AlnumOrSpace(r[k])
    {
      assert r[k] == s[i + k];
    }
  }

  /** Lower-casing turns letters, digits and spaces into clean characters, and spaces stay spaces. */
  lemma LowerChars(s: string)
    requires All(AlnumOrSpace, s)
    ensures All(CleanChar, Lower(s))
    ensures |Lower(s)| == |s| && forall k :: 0 <= k < |s| ==> (Lower(s)[k] == ' ' <==> s[k] == ' ')
  {
    LowerAt(s);
  }

  /**
   * The result holds only lower-case ASCII letters, digits and spaces, and has no space at
   * either end.
   */
  lemma CleanShape(s: string)
    ensures All(CleanChar, CleanStr2(s))
    ensures var r := CleanStr2(s); |r| > 0 ==> r[0] != ' ' && r[|r| - 1] != ' '
  {
    var s4 := DropPunctuation(Collapse(Contractions(Substitute(s))));
    StepsChars(s);
    StripChars(s4);
    LowerChars(Strip(s4));
  }

  // ---------------------------------------------------------------------------------------
  // Text that is already clean

  /** A rule whose pattern holds a character absent from `s` does not apply. */
  lemma {:induction false} ReplaceAllAbsent(s: string, pat: string, rep: string, c: char)
    requires |pat| > 0 && c in pat && c !in s
    ensures ReplaceAll(s, pat, rep) == s
    decreases |s|
  {
    if |s| >= |pat| {
      var j :| 0 <= j < |pat| && pat[j] == c;
      assert s[..|pat|][j] != pat[j];
      ReplaceAllAbsent(s[1..], pat, rep, c);
      assert [s[0]] + s[1..] == s;
    }
  }

  /** Rules whose patterns all hold a character absent from `s` leave it as it is. */
  lemma {:induction false} RewriteAbsent(s: string, rules: seq<(string, string)>, c: char)
    requires NonEmptyPatterns(rules) && c !in s
    requires forall i :: 0 <= i < |rules| ==> c in rules[i].0
    ensures Rewrite(s, rules) == s
    decreases |rules|
  {
    if |rules| > 0 {
      ReplaceAllAbsent(s, rules[0].0, rules[0].1, c);
      RewriteAbsent(s, rules[1..], c);
    }
  }

  /** Every contraction pattern holds an apostrophe. */
  lemma RulesHaveApostrophe()
    ensures forall i :: 0 <= i < |Rules| ==> '\'' in Rules[i].0
  {
    forall i | 0 <= i < |Rules|
      ensures '\'' in Rules[i].0
    {
      var pat := Rules[i].0;
      assert pat[0] == '\'' || pat[1] == '\'';
    }
  }

  /** A string of kept characters and spaces goes through the first substitution unchanged. */
  lemma {:induction false} SubstituteKept(s: string)
    requires All(SubstitutedChar, s)
    ensures Substitute(s) == s
    decreases |s|
  {
    if |s| > 0 {
      assert All(SubstitutedChar, s[1..]);
      SubstituteKept(s[1..]);
      assert [s[0]] + s[1..] == s;
    }
  }

  /** With no two whitespace characters in a row, there is nothing to collapse. */
  lemma {:induction false} CollapseSingle(s: string)
    requires forall k :: 0 <= k < |s| - 1 ==> !IsSpace(s[k]) || !IsSpace(s[k + 1])
    ensures Collapse(s) == s
    decreases |s|
  {
    if |s| > 0 {
      assert SpaceRun(s) < 2 by {
        if IsSpace(s[0]) && |s| > 1 {
          assert !IsSpace(s[1]);
        }
      }
      CollapseSingle(s[1..]);
      assert [s[0]] + s[1..] == s;
    }
  }

  /** A string without upper-case letters is its own lower case. */
  lemma {:induction false} LowerNoUpper(s: string)
    requires forall k :: 0 <= k < |s| ==> !IsUpper(s[k])
    ensures Lower(s) == s
    decreases |s|
  {
    if |s| > 0 {
      LowerNoUpper(s[1..]);
      assert [s[0]] + s[1..] == s;
    }
  }

  /** Text already in normal form: clean characters, single spaces, no space at either end. */
  predicate Normalised(s: string)
  {
    && All(CleanChar, s)
    && (forall k :: 0 <= k < |s| - 1 ==> s[k] != ' ' || s[k + 1] != ' ')
    && (|s| > 0 ==> s[0] != ' ' && s[|s| - 1] != ' ')
  }

  /** The steps before the strip leave normalised text as it is. */
  lemma NormalisedSteps(s: string)
    requires Normalised(s)
    ensures DropPunctuation(Collapse(Contractions(Substitute(s)))) == s
  {
    NormalisedClass(s);
    SubstituteKept(s);
    RulesHaveApostrophe();
    RewriteAbsent(s, Rules, '\'');
    CollapseSingle(s);
    FilterAll(NotPunctuation, s);
  }

  /** Normalised text has no character that any step before the strip would touch. */
  lemma NormalisedClass(s: string)
    requires Normalised(s)
    ensures All(SubstitutedChar, s) && All(NotPunctuation, s) && '\'' !in s
    ensures forall k :: 0 <= k < |s| - 1 ==> !IsSpace(s[k]) || !IsSpace(s[k + 1])
  {
    forall k | 0 <= k < |s|
      ensures SubstitutedChar(s[k]) && NotPunctuation(s[k]) && s[k] != '\''
      ensures IsSpace(s[k]) ==> s[k] == ' '
    {
      assert CleanChar(s[k]);
    }
  }

  /** `clean_str2` leaves normalised text as it is. */
  lemma CleanNormalised(s: string)
    requires Normalised(s)
    ensures CleanStr2(s) == s
  {
    NormalisedSteps(s);
    if |s| > 0 {
      assert !IsSpace(s[0]) && !IsSpace(s[|s| - 1]);
      assert StripLeft(s) == s;
    }
    LowerNoUpper(s);
  }
}
