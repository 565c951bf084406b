/** Entity references as the translator writes and reads them: eight replacements, one after the
    other, in the same order both ways. */
module Entities {
  import opened Wrappers
  import opened LangStr

  /** Every occurrence of `pat`, from the left, replaced by `rep`. */
  function Replace(s: string, pat: string, rep: string): string
    requires pat != ""
    decreases |s|
  {
    if s == "" then ""
    else if pat <= s then rep + Replace(s[|pat|..], pat, rep)
    else [s[0]] + Replace(s[1..], pat, rep)
  }

  predicate Contains(s: string, pat: string) {
    pat <= s || (s != "" && Contains(s[1..], pat))
  }

  /** How an entity reference is spelled: from an ampersand to a semicolon. */
  predicate IsSpelling(p: string) {
    && |p| >= 2 && p[0] == '&' && p[|p| - 1] == ';'
    && forall k :: 0 < k < |p| - 1 ==> p[k] != '&' && p[k] != ';' && p[k] !in SPECIAL
  }

  /** The characters written as entity references. */
  const SPECIAL: set<char> := {'&', '<', '>', '"', '\'', '\t', '\n', '\r'}

  function Spelling(c: char): string {
    match c
    case '&' => "&amp;"
    case '<' => "&lt;"
    case '>' => "&gt;"
    case '"' => "&quot;"
    case '\'' => "&apos;"
    case '\t' => "&#009;"
    case '\n' => "&#010;"
    case '\r' => "&#013;"
    case _ => [c]
  }

  lemma {:induction false} Spellings(c: char)
    requires c in SPECIAL
    ensures IsSpelling(Spelling(c))
  {
  }

  lemma {:induction false} SpellingsDiffer(c: char, d: char)
    requires c in SPECIAL && d in SPECIAL && c != d
    ensures Spelling(c) != Spelling(d)
  {
    assert "&amp;"[1] == 'a' && "&lt;"[1] == 'l' && "&gt;"[1] == 'g' && "&quot;"[1] == 'q' && "&apos;"[1] == 'a';
    assert "&#009;"[3] == '0' && "&#010;"[3] == '1' && "&#013;"[3] == '1' && "&#010;"[4] == '0' && "&#013;"[4] == '3';
  }

  function Pass(s: string, c: char): string {
    Replace(s, [c], Spelling(c))
  }

  function XmlStr2Entity(s: string): string {
    Pass(Pass(Pass(Pass(Pass(Pass(Pass(Pass(s, '&'), '<'), '>'), '"'), '\''), '\t'), '\n'), '\r')
  }

  function Unpass(s: string, c: char): (r: string)
    requires c in SPECIAL
  {
    Spellings(c);
    Replace(s, Spelling(c), [c])
  }

  /** The replacements that follow the one of `&amp;`. */
  function Seven(s: string): string {
    Unpass(Unpass(Unpass(Unpass(Unpass(Unpass(Unpass(s, '<'), '>'), '"'), '\''), '\t'), '\n'), '\r')
  }

  function XmlEntity2Str(s: string): string {
    Seven(Unpass(s, '&'))
  }

  // ----- encoding is done character by character

  /** The characters of `S` spelled out, the others as they are. */
  function Spell(S: set<char>): char -> string {
    c => if c in S then Spelling(c) else [c]
  }

  /** A replacement of a character that is not in the spellings written so far writes one more. */
  lemma {:induction false} PassSpell(s: string, S: set<char>, c: char)
    requires S <= SPECIAL && c in SPECIAL && c !in S && (c == '&' ==> S == {})
    ensures Pass(Expand(Spell(S), s), c) == Expand(Spell(S + {c}), s)
  {
    if s != "" {
      PassSpell(s[1..], S, c);
      PassConcat(Spell(S)(s[0]), Expand(Spell(S), s[1..]), c);
      if s[0] in S {
        PassSpelled(s[0], c);
      } else {
        PassChar(s[0], c);
      }
    }
  }

  lemma {:induction false} PassSpelled(d: char, c: char)
    requires d in SPECIAL && c in SPECIAL && c != '&'
    ensures Pass(Spelling(d), c) == Spelling(d)
  {
    Spellings(d);
    PassNothing(Spelling(d), c);
  }

  lemma {:induction false} PassChar(d: char, c: char)
    ensures Pass([d], c) == if d == c then Spelling(c) else [d]
  {
    assert [d][|[c]|..] == "" && [d][1..] == "" && [c][0] == c && [d][0] == d;
    assert Replace("", [c], Spelling(c)) == "";
    assert [c] <= [d] <==> d == c;
    ConcatNothing(Spelling(c));
    ConcatNothing([d]);
  }

  lemma {:induction false} PassConcat(a: string, b: string, c: char)
    ensures Pass(a + b, c) == Pass(a, c) + Pass(b, c)
    decreases |a|
  {
    if a == "" {
      ConcatNothing(b);
      ConcatNothing(Pass(b, c));
    } else {
      assert (a + b)[1..] == a[1..] + b && (a + b)[0] == a[0];
      assert [c] <= a + b <==> a[0] == c;
      assert [c] <= a <==> a[0] == c;
      PassConcat(a[1..], b, c);
      ConcatAssoc(if a[0] == c then Spelling(c) else [a[0]], Pass(a[1..], c), Pass(b, c));
    }
  }

  lemma {:induction false} PassNothing(a: string, c: char)
    requires forall k :: 0 <= k < |a| ==> a[k] != c
    ensures Pass(a, c) == a
    decreases |a|
  {
    if a != "" {
      PassNothing(a[1..], c);
      assert !([c] <= a) && [a[0]] + a[1..] == a;
    }
  }

  lemma {:induction false} SpellNothing(s: string)
    ensures Expand(Spell({}), s) == s
  {
    if s != "" {
      SpellNothing(s[1..]);
      assert [s[0]] + s[1..] == s;
    }
  }

  const MARKUP: set<char> := {'&', '<', '>', '"'}

  lemma {:induction false} FirstPasses(s: string)
    ensures Pass(Pass(Pass(Pass(s, '&'), '<'), '>'), '"') == Expand(Spell(MARKUP), s)
  {
    SpellNothing(s);
    PassSpell(s, {}, '&');
    assert {} + {'&'} == {'&'};
    PassSpell(s, {'&'}, '<');
    assert {'&'} + {'<'} == {'&', '<'};
    PassSpell(s, {'&', '<'}, '>');
    assert {'&', '<'} + {'>'} == {'&', '<', '>'};
    PassSpell(s, {'&', '<', '>'}, '"');
    assert {'&', '<', '>'} + {'"'} == MARKUP;
  }

  lemma {:induction false} LastPasses(s: string)
    ensures Pass(Pass(Pass(Pass(Expand(Spell(MARKUP), s), '\''), '\t'), '\n'), '\r') == Expand(Spell(SPECIAL), s)
  {
    PassSpell(s, MARKUP, '\'');
    PassSpell(s, MARKUP + {'\''}, '\t');
    PassEnds(s);
  }

  lemma {:induction false} PassEnds(s: string)
    ensures Pass(Pass(Expand(Spell(MARKUP + {'\''} + {'\t'}), s), '\n'), '\r') == Expand(Spell(SPECIAL), s)
  {
    PassSpell(s, MARKUP + {'\''} + {'\t'}, '\n');
    PassSpell(s, MARKUP + {'\''} + {'\t'} + {'\n'}, '\r');
    assert MARKUP + {'\''} + {'\t'} + {'\n'} + {'\r'} == SPECIAL;
  }

  /** The eight passes spell out each of the eight characters, and nothing twice. */
  lemma {:induction false} EncodedByCharacter(s: string)
    ensures XmlStr2Entity(s) == Expand(Spell(SPECIAL), s)
  {
    FirstPasses(s);
    LastPasses(s);
  }

  /** The eight references, each in the place of its character. */
  lemma {:induction false} EncodedCharacter(a: string, c: char)
    ensures XmlStr2Entity(a + [c]) == XmlStr2Entity(a) + match c
                                                         case '&' => "&amp;"
                                                         case '<' => "&lt;"
                                                         case '>' => "&gt;"
                                                         case '"' => "&quot;"
                                                         case '\'' => "&apos;"
                                                         case '\t' => "&#009;"
                                                         case '\n' => "&#010;"
                                                         case '\r' => "&#013;"
                                                         case _ => [c]
  {
    EncodedByCharacter(a + [c]);
    EncodedByCharacter(a);
    ExpandConcat(Spell(SPECIAL), a, [c]);
    assert [c][1..] == "";
    ConcatNothing(Spell(SPECIAL)(c));
  }

  // ----- decoding

  /** A reference is not the beginning of another one. */
  lemma {:induction false} SpellingStarts(p: string, q: string, u: string)
    requires IsSpelling(p) && IsSpelling(q) && p <= q + u
    ensures p == q
  {
    assert (q + u)[..|q|] == q;
    assert forall k :: 0 <= k < |p| && k < |q| ==> p[k] == (q + u)[k] == q[k];
    assert |p| == |q|;
    assert p == (q + u)[..|p|];
  }

  /** Within a text without ampersands nothing is replaced. */
  lemma {:induction false} ReplaceOver(a: string, u: string, p: string, rep: string)
    requires IsSpelling(p) && forall k :: 0 <= k < |a| ==> a[k] != '&'
    ensures Replace(a + u, p, rep) == a + Replace(u, p, rep)
    decreases |a|
  {
    if a == "" {
      ConcatNothing(u);
      ConcatNothing(Replace(u, p, rep));
    } else {
      assert (a + u)[1..] == a[1..] + u && (a + u)[0] == a[0];
      assert !(p <= a + u);
      ReplaceOver(a[1..], u, p, rep);
      assert [a[0]] + a[1..] == a;
      ConcatAssoc([a[0]], a[1..], Replace(u, p, rep));
    }
  }

  /** Another reference stays as it is. */
  lemma {:induction false} ReplaceOther(q: string, u: string, p: string, rep: string)
    requires IsSpelling(p) && IsSpelling(q) && p != q
    ensures Replace(q + u, p, rep) == q + Replace(u, p, rep)
  {
    if p <= q + u {
      SpellingStarts(p, q, u);
    }
    assert (q + u)[1..] == q[1..] + u && (q + u)[0] == q[0];
    ReplaceOver(q[1..], u, p, rep);
    assert [q[0]] + q[1..] == q;
    ConcatAssoc([q[0]], q[1..], Replace(u, p, rep));
  }

  lemma {:induction false} ReplaceHit(u: string, p: string, rep: string)
    requires p != ""
    ensures Replace(p + u, p, rep) == rep + Replace(u, p, rep)
  {
    assert (p + u)[|p|..] == u;
  }

  /** A piece of text without special characters starts a spelled-out text just when it starts the
      text itself. */
  lemma {:induction false} PlainStart(w: string, s: string, S: set<char>)
    requires S <= SPECIAL && forall k :: 0 <= k < |w| ==> w[k] != '&' && w[k] !in S
    ensures w <= Expand(Spell(S), s) <==> w <= s
    decreases |w|
  {
    if w != "" && s != "" {
      var e := Expand(Spell(S), s);
      var h := Spell(S)(s[0]);
      PlainStart(w[1..], s[1..], S);
      if s[0] in S {
        Spellings(s[0]);
        assert e[0] == '&';
      } else {
        assert e == [s[0]] + Expand(Spell(S), s[1..]);
        PrefixTail(w, s);
        PrefixTail(w, e);
        assert e[1..] == Expand(Spell(S), s[1..]);
      }
    }
  }

  lemma {:induction false} PrefixTail(w: string, s: string)
    requires w != "" && s != ""
    ensures w <= s <==> w[0] == s[0] && w[1..] <= s[1..]
  {
    if w[0] == s[0] && w[1..] <= s[1..] {
      assert forall k :: 1 <= k < |w| ==> w[k] == w[1..][k - 1] && s[k] == s[1..][k - 1];
    }
    if w <= s {
      assert forall k :: 0 <= k < |w| - 1 ==> w[1..][k] == w[k + 1] && s[1..][k] == s[k + 1];
    }
  }

  lemma {:induction false} SpelledStart(s: string, S: set<char>, c: char)
    requires S <= SPECIAL && '&' !in S && c in S && s != "" && s[0] !in S
    ensures Spelling(c) <= Expand(Spell(S), s) <==> Spelling(c) <= s
  {
    Spellings(c);
    var p, e := Spelling(c), Expand(Spell(S), s);
    assert e == [s[0]] + Expand(Spell(S), s[1..]);
    assert e[1..] == Expand(Spell(S), s[1..]);
    PrefixTail(p, s);
    PrefixTail(p, e);
    InnerPlain(c, S);
    PlainStart(p[1..], s[1..], S);
  }

  lemma {:induction false} InnerPlain(c: char, S: set<char>)
    requires S <= SPECIAL && '&' !in S && c in SPECIAL
    ensures forall k :: 0 <= k < |Spelling(c)| - 1 ==> Spelling(c)[1..][k] != '&' && Spelling(c)[1..][k] !in S
  {
    Spellings(c);
    var p := Spelling(c);
    forall k | 0 <= k < |p| - 1
      ensures p[1..][k] != '&' && p[1..][k] !in S
    {
      assert p[1..][k] == p[k + 1];
      assert ';' !in SPECIAL;
    }
  }

  /** A reference in plain text is the same reference where other characters are spelled out. */
  lemma {:induction false} SpellPlain(S: set<char>, a: string, s: string)
    requires forall k :: 0 <= k < |a| ==> a[k] !in S
    ensures Expand(Spell(S), a + s) == a + Expand(Spell(S), s)
    decreases |a|
  {
    if a == "" {
      ConcatNothing(s);
      ConcatNothing(Expand(Spell(S), s));
    } else {
      assert (a + s)[1..] == a[1..] + s && (a + s)[0] == a[0];
      SpellPlain(S, a[1..], s);
      assert [a[0]] + a[1..] == a;
      ConcatAssoc([a[0]], a[1..], Expand(Spell(S), s));
    }
  }

  lemma {:induction false} SpellingPlain(c: char, S: set<char>, s: string)
    requires S <= SPECIAL && '&' !in S && c in SPECIAL
    ensures Expand(Spell(S), Spelling(c) + s) == Spelling(c) + Expand(Spell(S), s)
  {
    var p := Spelling(c);
    Spellings(c);
    InnerPlain(c, S);
    forall k | 0 <= k < |p|
      ensures p[k] !in S
    {
      if k > 0 {
        assert p[1..][k - 1] == p[k];
      }
    }
    SpellPlain(S, p, s);
  }

  /** One replacement decodes its character where it was spelled out, and does to the text what it
      does to the original. */
  lemma {:induction false} UnpassSpell(s: string, S: set<char>, c: char)
    requires S <= SPECIAL && '&' !in S && c in S
    ensures Unpass(Expand(Spell(S), s), c) == Expand(Spell(S - {c}), Unpass(s, c))
    decreases |s|
  {
    var p, T := Spelling(c), S - {c};
    Spellings(c);
    if s == "" {
    } else if p <= s {
      assert s == p + s[|p|..];
      SpellingPlain(c, S, s[|p|..]);
      ReplaceHit(Expand(Spell(S), s[|p|..]), p, [c]);
      UnpassSpell(s[|p|..], S, c);
      SpellOne(T, c, Unpass(s[|p|..], c));
    } else {
      UnpassSpell(s[1..], S, c);
      SpellOne(T, s[0], Unpass(s[1..], c));
      UnpassFirst(s, S, c);
    }
  }

  lemma {:induction false} SpellOne(S: set<char>, c: char, s: string)
    ensures Expand(Spell(S), [c] + s) == Spell(S)(c) + Expand(Spell(S), s)
  {
    assert ([c] + s)[1..] == s && ([c] + s)[0] == c;
  }

  /** The first character, where no reference to `c` starts. */
  lemma {:induction false} UnpassFirst(s: string, S: set<char>, c: char)
    requires S <= SPECIAL && '&' !in S && c in S && s != "" && !(Spelling(c) <= s)
    ensures Unpass(Expand(Spell(S), s), c) == Spell(S - {c})(s[0]) + Unpass(Expand(Spell(S), s[1..]), c)
  {
    var p, u := Spelling(c), Expand(Spell(S), s[1..]);
    Spellings(c);
    if s[0] == c {
      ReplaceHit(u, p, [c]);
    } else if s[0] in S {
      Spellings(s[0]);
      SpellingsDiffer(s[0], c);
      ReplaceOther(Spelling(s[0]), u, p, [c]);
    } else {
      SpelledStart(s, S, c);
      assert ([s[0]] + u)[1..] == u;
    }
  }

  lemma {:induction false} UnpassAmp(s: string)
    ensures Unpass(Expand(Spell(SPECIAL), s), '&') == Expand(Spell(SPECIAL - {'&'}), s)
  {
    if s != "" {
      var u := Expand(Spell(SPECIAL), s[1..]);
      UnpassAmp(s[1..]);
      Spellings('&');
      if s[0] == '&' {
        ReplaceHit(u, Spelling('&'), ['&']);
      } else if s[0] in SPECIAL {
        Spellings(s[0]);
        SpellingsDiffer(s[0], '&');
        ReplaceOther(Spelling(s[0]), u, Spelling('&'), ['&']);
      } else {
        ReplaceOver([s[0]], u, Spelling('&'), ['&']);
      }
    }
  }

  const BLANKS: set<char> := {'\t', '\n', '\r'}

  const UNQUOTED: set<char> := {'"', '\'', '\t', '\n', '\r'}

  lemma {:induction false} AngleUnpasses(s: string)
    ensures Unpass(Unpass(Expand(Spell(SPECIAL - {'&'}), s), '<'), '>') ==
            Expand(Spell(UNQUOTED), Unpass(Unpass(s, '<'), '>'))
  {
    UnpassTwo(s, SPECIAL - {'&'}, '<', '>');
    assert SPECIAL - {'&'} - {'<'} - {'>'} == UNQUOTED;
  }

  lemma {:induction false} QuoteUnpasses(s: string)
    ensures Unpass(Unpass(Expand(Spell(UNQUOTED), s), '"'), '\'') == Expand(Spell(BLANKS), Unpass(Unpass(s, '"'), '\''))
  {
    UnpassTwo(s, UNQUOTED, '"', '\'');
    assert UNQUOTED - {'"'} - {'\''} == BLANKS;
  }

  lemma {:induction false} UnpassTwo(s: string, S: set<char>, c: char, d: char)
    requires S <= SPECIAL && '&' !in S && c in S && d in S && c != d
    ensures Unpass(Unpass(Expand(Spell(S), s), c), d) == Expand(Spell(S - {c} - {d}), Unpass(Unpass(s, c), d))
  {
    UnpassSpell(s, S, c);
    UnpassSpell(Unpass(s, c), S - {c}, d);
  }

  lemma {:induction false} LastUnpasses(s: string)
    ensures Unpass(Unpass(Unpass(Expand(Spell(BLANKS), s), '\t'), '\n'), '\r') ==
            Unpass(Unpass(Unpass(s, '\t'), '\n'), '\r')
  {
    UnpassSpell(s, BLANKS, '\t');
    UnpassSpell(Unpass(s, '\t'), BLANKS - {'\t'}, '\n');
    UnpassSpell(Unpass(Unpass(s, '\t'), '\n'), BLANKS - {'\t'} - {'\n'}, '\r');
    assert BLANKS - {'\t'} - {'\n'} - {'\r'} == {};
    SpellNothing(Unpass(Unpass(Unpass(s, '\t'), '\n'), '\r'));
  }

  /** Decoding what was encoded replaces the references that the text itself spelled out. */
  lemma {:induction false} DecodedEncoding(s: string)
    ensures XmlEntity2Str(XmlStr2Entity(s)) == Seven(s)
  {
    EncodedByCharacter(s);
    UnpassAmp(s);
    AngleUnpasses(s);
    QuoteUnpasses(Unpass(Unpass(s, '<'), '>'));
    LastUnpasses(Unpass(Unpass(Unpass(Unpass(s, '<'), '>'), '"'), '\''));
  }

  // ----- when decoding undoes encoding

  lemma {:induction false} UnpassShorter(s: string, c: char)
    requires c in SPECIAL
    ensures |Unpass(s, c)| <= |s|
    ensures Contains(s, Spelling(c)) ==> |Unpass(s, c)| < |s|
    ensures !Contains(s, Spelling(c)) ==> Unpass(s, c) == s
    decreases |s|
  {
    var p := Spelling(c);
    Spellings(c);
    if s != "" {
      if p <= s {
        UnpassShorter(s[|p|..], c);
      } else {
        UnpassShorter(s[1..], c);
        assert [s[0]] + s[1..] == s;
      }
    }
  }

  /** No reference but `&amp;` is spelled out in the text. */
  predicate SpellsNone(s: string) {
    forall c | c in SPECIAL - {'&'} :: !Contains(s, Spelling(c))
  }

  lemma {:induction false} SevenStep(s: string, t: string, c: char)
    requires c in SPECIAL && |t| <= |s| && (|t| == |s| ==> t == s)
    ensures |Unpass(t, c)| <= |s| && (|Unpass(t, c)| == |s| ==> Unpass(t, c) == s && !Contains(s, Spelling(c)))
    ensures t == s && !Contains(s, Spelling(c)) ==> Unpass(t, c) == s
    ensures |t| < |s| ==> |Unpass(t, c)| < |s|
  {
    UnpassShorter(t, c);
  }

  /** Decoding undoes encoding exactly for texts that spell out none of the seven references. */
  lemma {:induction false} RoundTripExact(s: string)
    ensures XmlEntity2Str(XmlStr2Entity(s)) == s <==> SpellsNone(s)
  {
    DecodedEncoding(s);
    var a := Unpass(s, '<');
    var b := Unpass(a, '>');
    var c := Unpass(b, '"');
    var d := Unpass(c, '\'');
    var e := Unpass(d, '\t');
    var f := Unpass(e, '\n');
    SevenStep(s, s, '<');
    SevenStep(s, a, '>');
    SevenStep(s, b, '"');
    SevenStep(s, c, '\'');
    SevenStep(s, d, '\t');
    SevenStep(s, e, '\n');
    SevenStep(s, f, '\r');
  }

  /** The text `&lt;` does not come back. */
  lemma {:induction false} AmpFirstLosesText()
    ensures XmlEntity2Str(XmlStr2Entity("&lt;")) != "&lt;"
  {
    RoundTripExact("&lt;");
    assert Spelling('<') <= "&lt;";
    assert '<' in SPECIAL - {'&'};
  }

  // ----- the replacement loop

  /** The first occurrence of `pat` at or behind `from`, as `string::find` gives it. */
  method Find(s: string, pat: string, from: nat) returns (pos: Option<nat>)
    requires pat != "" && from <= |s|
    ensures pos.Some? ==> from <= pos.value && pos.value + |pat| <= |s| && pat <= s[pos.value..]
    ensures forall k :: from <= k < (if pos.Some? then pos.value else |s|) ==> !(pat <= s[k..])
  {
    var i := from;
    while i < |s|
      invariant from <= i <= |s| && forall k :: from <= k < i ==> !(pat <= s[k..])
    {
      if pat <= s[i..] {
        return Some(i);
      }
      i := i + 1;
    }
    pos := None;
  }

  /** Text up to the next occurrence stays. */
  lemma {:induction false} ReplaceSkip(s: string, pat: string, rep: string, from: nat, pos: nat)
    requires pat != "" && from <= pos <= |s| && forall k :: from <= k < pos ==> !(pat <= s[k..])
    ensures Replace(s[from..], pat, rep) == s[from..pos] + Replace(s[pos..], pat, rep)
    decreases pos - from
  {
    if from == pos {
      ConcatNothing(Replace(s[pos..], pat, rep));
    } else {
      ReplaceSkip(s, pat, rep, from + 1, pos);
      assert s[from..][1..] == s[from + 1..] && s[from..][0] == s[from];
      assert s[from..pos] == [s[from]] + s[from + 1..pos];
      ConcatAssoc([s[from]], s[from + 1..pos], Replace(s[pos..], pat, rep));
    }
  }

  /** Replaces occurrence after occurrence in the string itself, searching on behind each replacement. */
  method ReplaceAll(str: string, str2: string, str3: string) returns (str1: string)
    requires str2 != ""
    ensures str1 == Replace(str, str2, str3)
  {
    str1 := str;
    ghost var done: nat := 0;
    assert str[0..] == str;
    ConcatNothing(Replace(str, str2, str3));
    var pos := Find(str1, str2, 0);
    while pos.Some?
      invariant done <= |str1| && Replace(str, str2, str3) == str1[..done] + Replace(str1[done..], str2, str3)
      invariant pos.Some? ==> done <= pos.value && pos.value + |str2| <= |str1| && str2 <= str1[pos.value..]
      invariant forall k :: done <= k < (if pos.Some? then pos.value else |str1|) ==> !(str2 <= str1[k..])
      decreases |str1| - done
    {
      var p := pos.value;
      ghost var before := str1;
      ReplaceSkip(str1, str2, str3, done, p);
      str1 := str1[..p] + str3 + str1[p + |str2|..];
      ReplaceHere(before, str2, str3, done, p, str1);
      done := p + |str3|;
      pos := Find(str1, str2, p + |str3|);
    }
    ReplaceSkip(str1, str2, str3, done, |str1|);
    assert Replace("", str2, str3) == "" && str1[|str1|..] == "";
    ConcatNothing(str1[done..]);
    assert str1 == str1[..done] + str1[done..|str1|];
  }

  lemma {:induction false} ReplaceHere(s: string, pat: string, rep: string, done: nat, p: nat, t: string)
    requires pat != "" && done <= p && p + |pat| <= |s| && pat <= s[p..]
    requires t == s[..p] + rep + s[p + |pat|..]
    ensures |t| - (p + |rep|) < |s| - done
    ensures p + |rep| <= |t| && t[p + |rep|..] == s[p + |pat|..]
    ensures s[..done] + (s[done..p] + Replace(s[p..], pat, rep)) == t[..p + |rep|] + Replace(t[p + |rep|..], pat, rep)
  {
    assert s[p..][|pat|..] == s[p + |pat|..] && t[p + |rep|..] == s[p + |pat|..];
    ConcatAssoc(s[..done], s[done..p], Replace(s[p..], pat, rep));
    assert s[..done] + s[done..p] == s[..p];
    ConcatAssoc(s[..p], rep, Replace(s[p + |pat|..], pat, rep));
    assert t[..p + |rep|] == s[..p] + rep;
  }

  /** One replacement of the encoder. */
  method Encode(s: string, str2: string, str3: string, ghost c: char) returns (str: string)
    requires str2 == [c] && str3 == Spelling(c)
    ensures str == Pass(s, c)
  {
    str := ReplaceAll(s, str2, str3);
  }

  /** One replacement of the decoder. */
  method Decode(s: string, str2: string, str3: string, ghost c: char) returns (str: string)
    requires c in SPECIAL && str2 == Spelling(c) && str3 == [c]
    ensures str == Unpass(s, c)
  {
    Spellings(c);
    str := ReplaceAll(s, str2, str3);
  }

  method EncodeEntities(s: string) returns (str: string)
    ensures str == XmlStr2Entity(s)
  {
    str := Encode(s, "&", "&amp;", '&');
    str := Encode(str, "<", "&lt;", '<');
    str := Encode(str, ">", "&gt;", '>');
    str := Encode(str, "\"", "&quot;", '"');
    str := Encode(str, "\'", "&apos;", '\'');
    str := Encode(str, "\t", "&#009;", '\t');
    str := Encode(str, "\n", "&#010;", '\n');
    str := Encode(str, "\r", "&#013;", '\r');
  }

  method DecodeEntities(s: string) returns (str: string)
    ensures str == XmlEntity2Str(s)
  {
    str := Decode(s, "&amp;", "&", '&');
    str := Decode(str, "&lt;", "<", '<');
    str := Decode(str, "&gt;", ">", '>');
    str := Decode(str, "&quot;", "\"", '"');
    str := Decode(str, "&apos;", "\'", '\'');
    str := Decode(str, "&#009;", "\t", '\t');
    str := Decode(str, "&#010;", "\n", '\n');
    str := Decode(str, "&#013;", "\r", '\r');
  }
}
