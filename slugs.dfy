/** The text normaliser and the slugifiers of the services.

    courses.service.ts, course-sections.service.ts and categories.service.ts
    each carry an identical private copy of `sanitizeText` and of
    `generateSlug`; they are modelled once, as `SanitizeText` and
    `GenerateSlug`. course-classes.service.ts has its own, different
    `sanitizeText` (a `[^\w\s-]` filter) and builds its slug base from it:
    `SanitizeWord` and `ClassSlugBase`.

    Input is taken as already NFD-decomposed, so the pipelines start at the
    removal of U+0300-U+036F. */
module Slugs {
  import opened Seqs
  import opened Text

  predicate NotMark(c: char) { !IsCombiningMark(c) }

  /** `replace(/[\u0300-\u036f]/g, '')`: drops the combining marks. */
  function StripMarks(s: string): (r: string)
    ensures forall c :: c in r ==> !IsCombiningMark(c) && c in s
  {
    Filter(s, NotMark)
  }

  const Enye: char := 'ñ'

  /** `replace(/ñ/g, 'n')` */
  function MapEnye(s: string): (r: string)
    ensures |r| == |s|
    ensures forall i :: 0 <= i < |s| ==> r[i] == if s[i] == Enye then 'n' else s[i]
  {
    seq(|s|, i requires 0 <= i < |s| => if s[i] == Enye then 'n' else s[i])
  }

  /** `replace(/[^\x00-\x7F]/g, '')` */
  function KeepAscii(s: string): (r: string)
    ensures forall c :: c in r ==> IsAscii(c) && c in s
  {
    Filter(s, IsAscii)
  }

  /** The characters `[a-zA-Z0-9 -]` survive the slug filter (a space, not any whitespace). */
  predicate IsSlugSource(c: char) {
    IsUpper(c) || IsLower(c) || IsDigit(c) || c == ' ' || c == '-'
  }

  /** `replace(/[^a-zA-Z0-9 -]/g, '')` */
  function KeepSlugSource(s: string): (r: string)
    ensures forall c :: c in r ==> IsSlugSource(c)
  {
    Filter(s, IsSlugSource)
  }

  /** The characters `[\w\s-]` survive the course-class filter. */
  predicate IsWordSource(c: char) {
    IsWordChar(c) || IsSpace(c) || c == '-'
  }

  /** `replace(/[^\w\s-]/g, '')` */
  function KeepWordSource(s: string): (r: string)
    ensures forall c :: c in r ==> IsWordSource(c)
  {
    Filter(s, IsWordSource)
  }

  /** The alphabet of course, section and category slugs: `[a-z0-9-]`. */
  predicate IsSlugChar(c: char) {
    IsLower(c) || IsDigit(c) || c == '-'
  }

  /** The alphabet of course-class slugs: `[a-z0-9_-]`. */
  predicate IsClassSlugChar(c: char) {
    IsSlugChar(c) || c == '_'
  }

  /** The per-character part of `sanitizeText` before `trim`. */
  function Clean(s: string): string {
    KeepAscii(MapEnye(StripMarks(s)))
  }

  /** `sanitizeText` of courses, sections and categories: the result is
      ASCII and has no whitespace at either end. */
  function SanitizeText(s: string): (r: string)
    ensures forall c :: c in r ==> IsAscii(c)
    ensures r == [] || (!IsSpace(r[0]) && !IsSpace(r[|r| - 1]))
  {
    Trim(Clean(s))
  }

  /** `generateSlug` of courses, sections and categories: the result uses only
      `[a-z0-9-]`. */
  function GenerateSlug(s: string): (r: string)
    ensures forall c :: c in r ==> IsSlugChar(c)
  {
    var kept := KeepSlugSource(MapEnye(StripMarks(s)));
    var dashed := CollapseSpaces(kept);
    assert forall c :: c in dashed ==> IsUpper(c) || IsLower(c) || IsDigit(c) || c == '-';
    LowerAscii(dashed)
  }

  /** `sanitizeText` of course classes: only `[\w\s-]` is kept, no combining
      mark and no whitespace at either end remains. */
  function SanitizeWord(s: string): (r: string)
    ensures forall c :: c in r ==> IsWordSource(c)
    ensures r == [] || (!IsSpace(r[0]) && !IsSpace(r[|r| - 1]))
  {
    Trim(KeepWordSource(StripMarks(s)))
  }

  /** The slug base of a course class (`generateSlug` before the uniqueness
      probe): sanitised, whitespace runs turned into `-`, lower-cased. It
      uses only `[a-z0-9_-]`. */
  function ClassSlugBase(s: string): (r: string)
    ensures forall c :: c in r ==> IsClassSlugChar(c)
  {
    var dashed := CollapseSpaces(SanitizeWord(s));
    assert forall c :: c in dashed ==> IsWordChar(c) || c == '-';
    LowerWordChars(dashed);
    LowerAscii(dashed)
  }

  lemma LowerWordChars(s: string)
    requires forall c :: c in s ==> IsWordChar(c) || c == '-'
    ensures forall c :: c in LowerAscii(s) ==> IsClassSlugChar(c)
  {
    var r := LowerAscii(s);
    forall c | c in r
      ensures IsClassSlugChar(c)
    {
      var i :| 0 <= i < |r| && r[i] == c;
      assert s[i] in s;
    }
  }

  lemma MapEnyeUnchanged(s: string)
    requires forall c :: c in s ==> c != Enye
    ensures MapEnye(s) == s
  {
    forall i | 0 <= i < |s|
      ensures MapEnye(s)[i] == s[i]
    {
      assert s[i] in s;
    }
  }

  /** A slug is a fixed point of `generateSlug`, so slugifying twice is the
      same as slugifying once. */
  lemma GenerateSlugIdempotent(s: string)
    ensures GenerateSlug(GenerateSlug(s)) == GenerateSlug(s)
  {
    var x := GenerateSlug(s);
    FilterAll(x, NotMark);
    MapEnyeUnchanged(x);
    FilterAll(x, IsSlugSource);
    CollapseSpacesUnchanged(x);
    LowerAsciiNoUpper(x);
  }

  /** The course-class slug base is a fixed point of itself. */
  lemma ClassSlugBaseIdempotent(s: string)
    ensures ClassSlugBase(ClassSlugBase(s)) == ClassSlugBase(s)
  {
    var x := ClassSlugBase(s);
    assert forall c :: c in x ==> NotMark(c) && IsWordSource(c) && !IsSpace(c) && !IsUpper(c) by {
      forall c | c in x
        ensures NotMark(c) && IsWordSource(c) && !IsSpace(c) && !IsUpper(c)
      {
        assert IsClassSlugChar(c);
      }
    }
    FilterAll(x, NotMark);
    assert StripMarks(x) == x;
    FilterAll(x, IsWordSource);
    assert KeepWordSource(x) == x;
    TrimUnchanged(x);
    assert SanitizeWord(x) == x;
    CollapseSpacesUnchanged(x);
    LowerAsciiNoUpper(x);
  }

  /** Sanitising sanitised text changes nothing. */
  lemma SanitizeTextIdempotent(s: string)
    ensures SanitizeText(SanitizeText(s)) == SanitizeText(s)
  {
    var x := SanitizeText(s);
    assert forall c :: c in x ==> NotMark(c) && c != Enye;
    FilterAll(x, NotMark);
    assert StripMarks(x) == x;
    MapEnyeUnchanged(x);
    FilterAll(x, IsAscii);
    assert Clean(x) == x;
    TrimUnchanged(x);
  }

  /** The course-class sanitiser is idempotent too, so sanitising a title in
      `create` and again inside `generateSlug` is harmless. */
  lemma SanitizeWordIdempotent(s: string)
    ensures SanitizeWord(SanitizeWord(s)) == SanitizeWord(s)
  {
    var x := SanitizeWord(s);
    assert forall c :: c in x ==> NotMark(c) && IsWordSource(c) by {
      forall c | c in x
        ensures NotMark(c) && IsWordSource(c)
      {
        assert c in KeepWordSource(StripMarks(s));
      }
    }
    FilterAll(x, NotMark);
    assert StripMarks(x) == x;
    FilterAll(x, IsWordSource);
    assert KeepWordSource(x) == x;
    TrimUnchanged(x);
  }

  /** The pre-trim pipeline works character by character. */
  lemma CleanConcat(a: string, b: string)
    ensures Clean(a + b) == Clean(a) + Clean(b)
  {
    FilterConcat(a, b, NotMark);
    assert MapEnye(StripMarks(a) + StripMarks(b)) == MapEnye(StripMarks(a)) + MapEnye(StripMarks(b));
    FilterConcat(MapEnye(StripMarks(a)), MapEnye(StripMarks(b)), IsAscii);
  }

  /** What one character becomes: a combining mark vanishes, `ñ` becomes
      `n`, any other non-ASCII character vanishes, ASCII is kept. */
  lemma CleanChar(c: char)
    ensures Clean([c]) == if IsCombiningMark(c) then []
                          else if c == Enye then "n"
                          else if IsAscii(c) then [c]
                          else []
  {
    assert [c][1..] == [];
    var m := StripMarks([c]);
    assert m == if IsCombiningMark(c) then [] else [c];
    if m != [] {
      var e := MapEnye(m);
      assert e == [if c == Enye then 'n' else c];
      assert e[1..] == [];
    }
  }

  /** `sanitizeText` maps `ñ` to `n` wherever it stands. */
  lemma SanitizeTextEnye(a: string, b: string)
    ensures SanitizeText(a + [Enye] + b) == Trim(Clean(a) + "n" + Clean(b))
  {
    CleanConcat(a + [Enye], b);
    CleanConcat(a, [Enye]);
    CleanChar(Enye);
  }
}
