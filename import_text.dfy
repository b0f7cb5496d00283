/** The text importer shared by both versions of the header actions: the
    pasted project listing is cut into lines, each line is cleaned of the
    bullet and of the role suffix, and split into a name and a slug. */
module ImportText {
  import opened Types
  import opened Text
  import opened Utils

  const RoleSeparator: string := "] - "
  const Bullet: string := "• "
  const SlugOpener: string := " ["

  /** A parsed line: the project name and its slug (`None` when the line
      has no " [" separator, the JavaScript `undefined`). */
  datatype Entry = Entry(name: string, slug: Slug)

  /** `line.split("] - ").at(0)?.split("• ").at(-1)?.trim()`. Both splits
      always produce a piece, so the optional chaining never stops early. */
  function CleanLine(line: string): string {
    var beforeRole := Split(line, RoleSeparator)[0];
    var pieces := Split(beforeRole, Bullet);
    Trim(pieces[|pieces| - 1])
  }

  /** The last piece of a split is a suffix of the split string. */
  lemma LastPieceSuffix(s: string, sep: string)
    requires sep != []
    ensures var pieces := Split(s, sep);
      var last := pieces[|pieces| - 1];
      |last| <= |s| && last == s[|s| - |last|..] && !Contains(last, sep)
  {
    SplitLast(s, sep);
  }

  /** A cleaned line holds neither separator and starts and ends with a
      non-whitespace character (or is empty). */
  lemma CleanLineShape(line: string)
    ensures var c := CleanLine(line);
      !Contains(c, RoleSeparator) && !Contains(c, Bullet) &&
      (c == [] || (!IsWhitespace(c[0]) && !IsWhitespace(c[|c| - 1])))
  {
    var beforeRole := Split(line, RoleSeparator)[0];
    var pieces := Split(beforeRole, Bullet);
    var last := pieces[|pieces| - 1];
    LastPieceFree(line);
    TrimShape(last);
    assert CleanLine(line) == Trim(last);
  }

  /** Trimming a text free of both separators keeps it free of them, and
      the result is not padded with whitespace. */
  lemma TrimShape(s: string)
    requires !Contains(s, RoleSeparator) && !Contains(s, Bullet)
    ensures var c := Trim(s);
      !Contains(c, RoleSeparator) && !Contains(c, Bullet) &&
      (c == [] || (!IsWhitespace(c[0]) && !IsWhitespace(c[|c| - 1])))
  {
    TrimmedFree(s, RoleSeparator);
    TrimmedFree(s, Bullet);
    TrimInfix(s);
  }

  /** The piece that the two splits of `CleanLine` keep holds neither
      separator. */
  lemma LastPieceFree(line: string)
    ensures var beforeRole := Split(line, RoleSeparator)[0];
      var pieces := Split(beforeRole, Bullet);
      !Contains(pieces[|pieces| - 1], RoleSeparator) && !Contains(pieces[|pieces| - 1], Bullet)
  {
    var beforeRole := Split(line, RoleSeparator)[0];
    SplitHeadFree(line, RoleSeparator);
    LastPieceOfFree(beforeRole, Bullet, RoleSeparator);
  }

  /** The last piece of a split holds neither the separator nor anything
      the whole text lacks. */
  lemma LastPieceOfFree(s: string, sep: string, other: string)
    requires sep != [] && !Contains(s, other)
    ensures var pieces := Split(s, sep);
      !Contains(pieces[|pieces| - 1], sep) && !Contains(pieces[|pieces| - 1], other)
  {
    var pieces := Split(s, sep);
    var last := pieces[|pieces| - 1];
    LastPieceSuffix(s, sep);
    InfixFree(s, |s| - |last|, last, other);
  }

  /** A text holding neither separator and not padded with whitespace is
      left alone by the cleaning steps. */
  lemma CleanLineOfPlain(c: string)
    requires !Contains(c, RoleSeparator) && !Contains(c, Bullet)
    requires c == [] || (!IsWhitespace(c[0]) && !IsWhitespace(c[|c| - 1]))
    ensures CleanLine(c) == c
  {
    SplitFirst(c, RoleSeparator);
    assert Split(c, RoleSeparator) == [c];
    SplitFirst(c, Bullet);
    assert Split(c, Bullet) == [c];
    TrimUnpadded(c);
  }

  /** `const [name, slug] = line.split(" [")` on a non-empty cleaned line;
      an empty one is dropped (`filter(Boolean)`). */
  function ParseLine(line: string): (r: Option<Entry>)
    ensures r.None? <==> CleanLine(line) == ""
  {
    var cleaned := CleanLine(line);
    if cleaned == "" then None
    else
      var parts := Split(cleaned, SlugOpener);
      Some(Entry(parts[0], if |parts| > 1 then Some(parts[1]) else None))
  }

  /** A parsed name is the cleaned line up to its first " [", and the slug
      is present exactly when there is one; it is the text after that
      " [" up to the next " [" or the end. */
  lemma ParseLineShape(line: string)
    requires ParseLine(line).Some?
    ensures var c := CleanLine(line);
      var e := ParseLine(line).value;
      e.name != [] && !Contains(e.name, SlugOpener) &&
      (e.slug.None? <==> !Contains(c, SlugOpener)) &&
      (e.slug.None? ==> e.name == c) &&
      (e.slug.Some? ==> !Contains(e.slug.value, SlugOpener) && e.name + SlugOpener + e.slug.value <= c) &&
      (e.slug.Some? ==> c == e.name + SlugOpener + e.slug.value || e.name + SlugOpener + e.slug.value + SlugOpener <= c)
  {
    var c := CleanLine(line);
    var parts := Split(c, SlugOpener);
    SplitFirst(c, SlugOpener);
    SplitPiecesFree(c, SlugOpener);
    CleanLineShape(line);
    if |parts| > 1 {
      SplitFirstTwo(c, SlugOpener);
      var n := |parts[0]|;
      assert c[n] == (parts[0] + SlugOpener + parts[1])[n] == ' ';
    }
  }

  /** The entry of one line, as a list of zero or one entries. */
  function LineEntries(line: string): seq<Entry> {
    match ParseLine(line)
    case Some(e) => [e]
    case None => []
  }

  /** The entries of a pasted text, one per non-empty cleaned line, in
      line order. */
  function ParseLines(lines: seq<string>): seq<Entry> {
    FlatMap(LineEntries, lines)
  }

  /** `text.split("\n")` followed by the line pipeline. */
  function ParseImport(text: string): seq<Entry> {
    ParseLines(Split(text, "\n"))
  }

  /** Pasting lines joined by newlines yields the entries of the lines, in
      order, one per line that does not clean to the empty string. */
  lemma ParseImportOfLines(lines: seq<string>)
    requires |lines| >= 1
    requires forall k, i :: 0 <= k < |lines| && 0 <= i < |lines[k]| ==> lines[k][i] != '\n'
    ensures ParseImport(Join(lines, "\n")) == ParseLines(lines)
    ensures forall k :: 0 <= k < |lines| && CleanLine(lines[k]) != "" ==>
      ParseLine(lines[k]).value in ParseImport(Join(lines, "\n"))
  {
    JoinSplitChar(lines, '\n');
    forall k | 0 <= k < |lines| && CleanLine(lines[k]) != ""
      ensures ParseLine(lines[k]).value in ParseLines(lines)
    {
      var e := ParseLine(lines[k]).value;
      assert LineEntries(lines[k]) == [e];
      FlatMapMember(LineEntries, lines, k, e);
    }
  }

  /** `s` does not hold the character `c`. */
  predicate Free(s: string, c: char) {
    forall i :: 0 <= i < |s| ==> s[i] != c
  }

  /** The text "name [slug" of a well-formed listing entry: a name without
      brackets or bullets and a slug without "[" or bullets, which may end
      in "]". Such text is left alone by the cleaning steps, and splitting
      it on " [" gives back the name and the slug. */
  lemma EntryText(name: string, slug: string)
    requires name != [] && !IsWhitespace(name[0]) && slug != [] && !IsWhitespace(slug[|slug| - 1])
    requires Free(name, '[') && Free(name, ']') && Free(name, '•')
    requires Free(slug, '[') && Free(slug, '•')
    requires forall i :: 0 <= i < |slug| - 1 ==> slug[i] != ']'
    ensures var c := name + SlugOpener + slug;
      !Contains(c, RoleSeparator) && !Contains(c, Bullet) && Trim(c) == c &&
      Split(c, SlugOpener) == [name, slug]
  {
    EntryTextClean(name, slug);
    EntryTextSplit(name, slug);
  }

  lemma EntryTextClean(name: string, slug: string)
    requires name != [] && !IsWhitespace(name[0]) && slug != [] && !IsWhitespace(slug[|slug| - 1])
    requires Free(name, ']') && Free(name, '•') && Free(slug, '•')
    requires forall i :: 0 <= i < |slug| - 1 ==> slug[i] != ']'
    ensures var c := name + SlugOpener + slug;
      !Contains(c, RoleSeparator) && !Contains(c, Bullet) && Trim(c) == c
  {
    var c := name + SlugOpener + slug;
    var n := |name|;
    forall k | 0 <= k < |c| ensures c[k] != '•' && (k + 4 <= |c| ==> c[k] != ']') {
      if k < n {
        assert c[k] == name[k];
      } else if k >= n + 2 {
        assert c[k] == slug[k - n - 2];
      }
    }
    NoWindowNoContains(c, RoleSeparator, 0);
    NoWindowNoContains(c, Bullet, 0);
    assert c[0] == name[0] && c[|c| - 1] == slug[|slug| - 1];
    TrimUnpadded(c);
  }

  lemma EntryTextSplit(name: string, slug: string)
    requires name != [] && Free(name, '[') && Free(slug, '[')
    ensures Split(name + SlugOpener + slug, SlugOpener) == [name, slug]
  {
    var c := name + SlugOpener + slug;
    var n := |name|;
    assert c[n..n + 2] == SlugOpener;
    forall i | 0 <= i < n ensures !OccursAt(c, SlugOpener, i) {
      if i + 1 < n {
        assert c[i + 1] == name[i + 1];
      }
      assert c[i..i + 2][1] == c[i + 1];
    }
    SplitFirstPiece(c, SlugOpener, n);
    var parts := Split(c, SlugOpener);
    assert c[..n] == name;
    assert OccursAt(c, SlugOpener, n);
    SplitFirst(c, SlugOpener);
    assert c[n + 2..] == slug;
    assert Join(parts[1..], SlugOpener) == slug;
    NoWindowNoContains(slug, SlugOpener, 1);
    if |parts[1..]| >= 2 {
      JoinContains(parts[1..], SlugOpener);
    }
    assert parts == [name, slug];
  }

  /** A line "name [slug", as the listing writes it without a role: the
      slug keeps everything up to the end of the line, including a closing
      "]". */
  lemma ParseEntryLine(name: string, slug: string)
    requires name != [] && !IsWhitespace(name[0]) && slug != [] && !IsWhitespace(slug[|slug| - 1])
    requires Free(name, '[') && Free(name, ']') && Free(name, '•')
    requires Free(slug, '[') && Free(slug, '•')
    requires forall i :: 0 <= i < |slug| - 1 ==> slug[i] != ']'
    ensures ParseLine(name + SlugOpener + slug) == Some(Entry(name, Some(slug)))
  {
    var c := name + SlugOpener + slug;
    EntryText(name, slug);
    assert c[0] == name[0] && c[|c| - 1] == slug[|slug| - 1];
    CleanLineOfPlain(c);
  }

  /** Cutting at the first "] - " of a bulleted line keeps the bullet and
      the text before the role when that text has no "]". */
  lemma RoleCut(c: string, role: string)
    requires Free(c, ']')
    ensures Split(Bullet + c + RoleSeparator + role, RoleSeparator)[0] == Bullet + c
  {
    var line := Bullet + c + RoleSeparator + role;
    var k := 2 + |c|;
    assert line[k..k + 4] == RoleSeparator;
    forall i | 0 <= i < k ensures !OccursAt(line, RoleSeparator, i) {
      if i >= 2 {
        assert line[i] == c[i - 2];
      }
      assert line[i..i + 4][0] == line[i];
    }
    SplitFirstPiece(line, RoleSeparator, k);
    assert line[..k] == Bullet + c;
  }

  /** Splitting a bulleted text on the bullet leaves an empty piece and
      the text. */
  lemma BulletCut(c: string)
    requires !Contains(c, Bullet)
    ensures Split(Bullet + c, Bullet) == ["", c]
  {
    var b := Bullet + c;
    assert b[..2] == Bullet && b[2..] == c;
    SplitFirst(c, Bullet);
    assert Split(b, Bullet) == [""] + Split(c, Bullet);
  }

  /** A bulleted line "• name [slug] - role": the bullet and the role are
      cut off and the slug loses its closing "]". */
  lemma ParseBulletedLine(name: string, slug: string, role: string)
    requires name != [] && !IsWhitespace(name[0]) && slug != [] && !IsWhitespace(slug[|slug| - 1])
    requires Free(name, '[') && Free(name, ']') && Free(name, '•')
    requires Free(slug, '[') && Free(slug, ']') && Free(slug, '•')
    ensures ParseLine(Bullet + name + SlugOpener + slug + RoleSeparator + role)
      == Some(Entry(name, Some(slug)))
  {
    var c := name + SlugOpener + slug;
    EntryText(name, slug);
    assert Free(c, ']') by {
      forall k | 0 <= k < |c| ensures c[k] != ']' {
        if k < |name| {
          assert c[k] == name[k];
        } else if k >= |name| + 2 {
          assert c[k] == slug[k - |name| - 2];
        }
      }
    }
    var line := Bullet + name + SlugOpener + slug + RoleSeparator + role;
    assert line == Bullet + c + RoleSeparator + role;
    RoleCut(c, role);
    BulletCut(c);
  }

  /** A line without " [" yields a project named after the whole cleaned
      line and without a slug. */
  lemma ParseNameOnly(name: string)
    requires name != [] && !IsWhitespace(name[0]) && !IsWhitespace(name[|name| - 1])
    requires Free(name, '[') && Free(name, ']') && Free(name, '•')
    ensures ParseLine(name) == Some(Entry(name, None))
  {
    NoWindowNoContains(name, RoleSeparator, 0);
    NoWindowNoContains(name, Bullet, 0);
    NoWindowNoContains(name, SlugOpener, 1);
    CleanLineOfPlain(name);
    SplitFirst(name, SlugOpener);
    assert Split(name, SlugOpener) == [name];
  }
}
