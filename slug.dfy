/**
 * The slug pipeline that both versions of txt2Slug share: lower-case the
 * text, transliterate it through a table, replace every run of characters
 * outside [0-9a-z] by one '-', and strip '-' from both ends. The
 * transliteration table is a parameter; each version of the helper supplies
 * its own.
 */
module Slug {
  import opened Php


  /**
   * mb_strtolower, restricted to the letters that matter here: ASCII, the
   * upper-case Latin-1 letters, the upper-case Cyrillic letters and the upper
   * case of the Latin Extended-A letters of the transliteration tables, and
   * the capital schwa. Every other character is left as it is.
   */
  function LowerChar(c: char): char {
    if 'A' <= c <= 'Z' then (c as int + 32) as char
    else if 0xC0 <= c as int <= 0xDE && c as int != 0xD7 then (c as int + 32) as char
    else if 0x410 <= c as int <= 0x42F then (c as int + 32) as char
    else if c == 'Ё' then 'ё'
    else if c == 'Č' then 'č'
    else if c == 'Ł' then 'ł'
    else if c == 'Š' then 'š'
    else if c == 'Ů' then 'ů'
    else if c == 'Ž' then 'ž'
    else if c == 'Ÿ' then 'ÿ'
    else if c == 'ẞ' then 'ß'
    else if c == 'Ə' then 'ə'
    else c
  }

  function LowerCase(s: string): (r: string)
    ensures |r| == |s|
    ensures forall k :: 0 <= k < |s| ==> r[k] == LowerChar(s[k])
  {
    seq(|s|, k requires 0 <= k < |s| => LowerChar(s[k]))
  }

  /** strtr($s, $table), the table given as the replacement of each character it rewrites. */
  function Transliterate(table: char -> Option<string>, s: string): string
    decreases |s|
  {
    if s == [] then []
    else (if table(s[0]).Some? then table(s[0]).value else [s[0]]) + Transliterate(table, s[1..])
  }

  /** Two tables that agree on every character of s transliterate s alike. */
  lemma {:induction false} TransliterateAgree(t1: char -> Option<string>, t2: char -> Option<string>, s: string)
    requires forall k :: 0 <= k < |s| ==> t1(s[k]) == t2(s[k])
    ensures Transliterate(t1, s) == Transliterate(t2, s)
    decreases |s|
  {
    if s != [] {
      assert forall k :: 1 <= k < |s| ==> s[1..][k - 1] == s[k];
      TransliterateAgree(t1, t2, s[1..]);
    }
  }

  lemma {:induction false} TransliterateConcat(table: char -> Option<string>, a: string, b: string)
    ensures Transliterate(table, a + b) == Transliterate(table, a) + Transliterate(table, b)
    decreases |a|
  {
    if a == [] {
      assert a + b == b;
    } else {
      assert (a + b)[0] == a[0] && (a + b)[1..] == a[1..] + b;
      TransliterateConcat(table, a[1..], b);
    }
  }

  /** The characters that survive in a slug: [0-9a-z]. */
  predicate IsSlugChar(c: char) {
    '0' <= c <= '9' || 'a' <= c <= 'z'
  }

  /** The letters and digits of s, in order. */
  function SlugChars(s: string): (r: string)
    ensures |r| <= |s|
    decreases |s|
  {
    if s == [] then [] else Kept(s[0]) + SlugChars(s[1..])
  }

  function Kept(c: char): string {
    if IsSlugChar(c) then [c] else []
  }

  lemma {:induction false} SlugCharsConcat(a: string, b: string)
    ensures SlugChars(a + b) == SlugChars(a) + SlugChars(b)
    decreases |a|
  {
    if a == [] {
      assert a + b == b;
    } else {
      assert (a + b)[0] == a[0] && (a + b)[1..] == a[1..] + b;
      SlugCharsConcat(a[1..], b);
      calc {
        SlugChars(a + b);
        Kept(a[0]) + SlugChars(a[1..] + b);
        Kept(a[0]) + (SlugChars(a[1..]) + SlugChars(b));
        (Kept(a[0]) + SlugChars(a[1..])) + SlugChars(b);
      }
    }
  }

  /** Drops the run of characters outside [0-9a-z] at the front of s. */
  function SkipRun(s: string): (r: string)
    ensures |r| <= |s| && r == s[|s| - |r|..]
    ensures r == [] || IsSlugChar(r[0])
    ensures SlugChars(r) == SlugChars(s)
    decreases |s|
  {
    if s == [] || IsSlugChar(s[0]) then s else SkipRun(s[1..])
  }

  /** preg_replace('/[^0-9a-z]+/', '-', $s): every maximal run outside [0-9a-z] becomes one '-'. */
  function Collapse(s: string): string
    decreases |s|
  {
    if s == [] then []
    else if IsSlugChar(s[0]) then [s[0]] + Collapse(s[1..])
    else "-" + Collapse(SkipRun(s[1..]))
  }

  /** trim($s, '-'), front half. */
  function TrimStart(s: string): (r: string)
    ensures |r| <= |s| && r == s[|s| - |r|..]
    ensures r == [] || r[0] != '-'
    decreases |s|
  {
    if s != [] && s[0] == '-' then TrimStart(s[1..]) else s
  }

  /** trim($s, '-'), back half. */
  function TrimEnd(s: string): (r: string)
    ensures |r| <= |s| && r == s[..|r|]
    ensures r == [] || r[|r| - 1] != '-'
    decreases |s|
  {
    if s != [] && s[|s| - 1] == '-' then TrimEnd(s[..|s| - 1]) else s
  }

  function Trim(s: string): string {
    TrimEnd(TrimStart(s))
  }

  function Slugify(table: char -> Option<string>, s: string): string {
    Trim(Collapse(Transliterate(table, LowerCase(s))))
  }

  // ---------------------------------------------------------------------------
  // What a slug looks like.

  predicate InAlphabet(s: string) {
    forall k :: 0 <= k < |s| ==> IsSlugChar(s[k]) || s[k] == '-'
  }

  predicate NoDoubleHyphen(s: string) {
    forall k :: 0 <= k < |s| - 1 ==> !(s[k] == '-' && s[k + 1] == '-')
  }

  predicate IsSlug(s: string) {
    && InAlphabet(s)
    && NoDoubleHyphen(s)
    && (s != [] ==> s[0] != '-' && s[|s| - 1] != '-')
  }

  /** A table that never rewrites a character a slug can contain. */
  predicate KeepsSlugAlphabet(table: char -> Option<string>) {
    forall c :: table(c).Some? ==> !IsSlugChar(c) && c != '-'
  }

  lemma ShapeConcat(a: string, b: string)
    requires InAlphabet(a) && NoDoubleHyphen(a) && InAlphabet(b) && NoDoubleHyphen(b)
    requires a == [] || b == [] || a[|a| - 1] != '-' || b[0] != '-'
    ensures InAlphabet(a + b) && NoDoubleHyphen(a + b)
  {
    var c := a + b;
    forall k | 0 <= k < |c| ensures IsSlugChar(c[k]) || c[k] == '-' {
      if k < |a| { assert c[k] == a[k]; } else { assert c[k] == b[k - |a|]; }
    }
    forall k | 0 <= k < |c| - 1 ensures !(c[k] == '-' && c[k + 1] == '-') {
      if k + 1 < |a| {
        assert c[k] == a[k] && c[k + 1] == a[k + 1];
      } else if k + 1 == |a| {
        assert c[k] == a[|a| - 1] && c[k + 1] == b[0];
      } else {
        assert c[k] == b[k - |a|] && c[k + 1] == b[k + 1 - |a|];
      }
    }
  }

  lemma {:induction false} CollapseShape(s: string)
    ensures InAlphabet(Collapse(s)) && NoDoubleHyphen(Collapse(s))
    ensures s == [] || IsSlugChar(s[0]) ==> Collapse(s) == [] || IsSlugChar(Collapse(s)[0])
    decreases |s|
  {
    if s != [] {
      if IsSlugChar(s[0]) {
        CollapseShape(s[1..]);
        ShapeConcat([s[0]], Collapse(s[1..]));
      } else {
        var t := SkipRun(s[1..]);
        CollapseShape(t);
        ShapeConcat("-", Collapse(t));
      }
    }
  }

  lemma {:induction false} CollapseKeepsSlugChars(s: string)
    ensures SlugChars(Collapse(s)) == SlugChars(s)
    decreases |s|
  {
    if s != [] {
      assert s == [s[0]] + s[1..];
      SlugCharsConcat([s[0]], s[1..]);
      if IsSlugChar(s[0]) {
        CollapseKeepsSlugChars(s[1..]);
        SlugCharsConcat([s[0]], Collapse(s[1..]));
      } else {
        var t := SkipRun(s[1..]);
        CollapseKeepsSlugChars(t);
        SlugCharsConcat("-", Collapse(t));
      }
    }
  }

  lemma SliceKeepsShape(s: string, i: int, j: int)
    requires 0 <= i <= j <= |s|
    requires InAlphabet(s) && NoDoubleHyphen(s)
    ensures InAlphabet(s[i..j]) && NoDoubleHyphen(s[i..j])
  {
    var t := s[i..j];
    forall k | 0 <= k < |t| - 1 ensures !(t[k] == '-' && t[k + 1] == '-') {
      assert t[k] == s[i + k] && t[k + 1] == s[i + k + 1];
    }
  }

  lemma {:induction false} TrimStartKeepsSlugChars(s: string)
    ensures SlugChars(TrimStart(s)) == SlugChars(s)
    decreases |s|
  {
    if s != [] && s[0] == '-' {
      TrimStartKeepsSlugChars(s[1..]);
    }
  }

  lemma {:induction false} TrimEndKeepsSlugChars(s: string)
    ensures SlugChars(TrimEnd(s)) == SlugChars(s)
    decreases |s|
  {
    if s != [] && s[|s| - 1] == '-' {
      var p := s[..|s| - 1];
      TrimEndKeepsSlugChars(p);
      assert s == p + "-";
      SlugCharsConcat(p, "-");
    }
  }

  /** Every output of the pipeline uses [0-9a-z-] only, has no '--' and no '-' at either end. */
  lemma SlugifyIsSlug(table: char -> Option<string>, s: string)
    ensures IsSlug(Slugify(table, s))
  {
    var c := Collapse(Transliterate(table, LowerCase(s)));
    CollapseShape(Transliterate(table, LowerCase(s)));
    var t := TrimStart(c);
    SliceKeepsShape(c, |c| - |t|, |c|);
    var r := TrimEnd(t);
    SliceKeepsShape(t, 0, |r|);
  }

  /** The pipeline keeps every letter and digit of the transliterated text, in order. */
  lemma SlugifyKeepsSlugChars(table: char -> Option<string>, s: string)
    ensures SlugChars(Slugify(table, s)) == SlugChars(Transliterate(table, LowerCase(s)))
  {
    var x := Transliterate(table, LowerCase(s));
    CollapseKeepsSlugChars(x);
    TrimStartKeepsSlugChars(Collapse(x));
    TrimEndKeepsSlugChars(TrimStart(Collapse(x)));
  }

  /** The slug is empty exactly when nothing of [0-9a-z] survives transliteration. */
  lemma SlugEmptyIff(table: char -> Option<string>, s: string)
    ensures Slugify(table, s) == [] <==> SlugChars(Transliterate(table, LowerCase(s))) == []
  {
    var r := Slugify(table, s);
    SlugifyKeepsSlugChars(table, s);
    SlugifyIsSlug(table, s);
    if r != [] {
      assert IsSlugChar(r[0]);
      assert r == [r[0]] + r[1..];
      SlugCharsConcat([r[0]], r[1..]);
    }
  }

  // ---------------------------------------------------------------------------
  // A slug is a fixed point of the pipeline.

  lemma {:induction false} TransliterateKeepsSlug(table: char -> Option<string>, s: string)
    requires KeepsSlugAlphabet(table) && InAlphabet(s)
    ensures Transliterate(table, s) == s
    decreases |s|
  {
    if s != [] {
      TransliterateKeepsSlug(table, s[1..]);
      assert s == [s[0]] + s[1..];
    }
  }

  lemma {:induction false} CollapseKeepsSlug(s: string)
    requires InAlphabet(s) && NoDoubleHyphen(s)
    ensures Collapse(s) == s
    decreases |s|
  {
    if s != [] {
      SliceKeepsShape(s, 1, |s|);
      CollapseKeepsSlug(s[1..]);
      if !IsSlugChar(s[0]) {
        assert s[1..] == [] || IsSlugChar(s[1..][0]);
        assert SkipRun(s[1..]) == s[1..];
      }
      assert s == [s[0]] + s[1..];
    }
  }

  /** Collapsing and trimming leave a slug as it is. */
  lemma CleanSlugUnchanged(r: string)
    requires IsSlug(r)
    ensures Trim(Collapse(r)) == r
  {
    CollapseKeepsSlug(r);
    assert TrimStart(r) == r;
    assert TrimEnd(r) == r;
  }

  lemma LowerCaseKeepsSlug(r: string)
    requires InAlphabet(r)
    ensures LowerCase(r) == r
  {
    var l := LowerCase(r);
    assert forall k :: 0 <= k < |r| ==> l[k] == r[k];
  }

  /** A slug is its own slug. */
  lemma SlugFixedPoint(table: char -> Option<string>, r: string)
    requires KeepsSlugAlphabet(table) && IsSlug(r)
    ensures Slugify(table, r) == r
  {
    LowerCaseKeepsSlug(r);
    TransliterateKeepsSlug(table, r);
    CleanSlugUnchanged(r);
  }

  lemma SlugifyIdempotent(table: char -> Option<string>, s: string)
    requires KeepsSlugAlphabet(table)
    ensures Slugify(table, Slugify(table, s)) == Slugify(table, s)
  {
    SlugifyIsSlug(table, s);
    SlugFixedPoint(table, Slugify(table, s));
  }
}
