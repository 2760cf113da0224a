/** Plain-text import (services/utils.ts): `splitTextIntoBlocks`, the file-name
    and metadata defaults of `fallbackParse`, and the `view_full_work` rewrite that
    `fetchAO3FromProxy` applies to an archive URL before fetching it. */
module TextImport {
  import opened Wrappers
  import opened JsString
  import opened Types
  import opened ChapterIndex
  import opened JsArray

  // ---------------------------------------------------------------------------
  // Line endings: `text.replace(/\r\n/g, '\n')`

  function ReplaceCrlf(s: string): (r: string)
    ensures |r| <= |s|
    decreases |s|
  {
    if |s| == 0 then ""
    else if |s| >= 2 && s[0] == '\r' && s[1] == '\n' then "\n" + ReplaceCrlf(s[2..])
    else [s[0]] + ReplaceCrlf(s[1..])
  }

  /** The text with every carriage return dropped. */
  function DropCr(s: string): (r: string)
    ensures '\r' !in r
  {
    if |s| == 0 then "" else (if s[0] == '\r' then "" else [s[0]]) + DropCr(s[1..])
  }

  lemma DropCrAppend(a: string, b: string)
    ensures DropCr(a + b) == DropCr(a) + DropCr(b)
  {
    if |a| == 0 {
      assert a + b == b;
    } else {
      assert (a + b)[1..] == a[1..] + b;
      DropCrAppend(a[1..], b);
    }
  }

  /** The rewrite removes carriage returns and nothing else: apart from them,
      the text is unchanged; a text without them is returned as it is. */
  lemma {:induction false} ReplaceCrlfOnlyDropsCr(s: string)
    ensures DropCr(ReplaceCrlf(s)) == DropCr(s)
    ensures '\r' !in s ==> ReplaceCrlf(s) == s
    decreases |s|
  {
    if |s| >= 2 && s[0] == '\r' && s[1] == '\n' {
      ReplaceCrlfOnlyDropsCr(s[2..]);
      assert s == "\r\n" + s[2..];
      DropCrAppend("\r\n", s[2..]);
      DropCrAppend("\n", ReplaceCrlf(s[2..]));
    } else if |s| > 0 {
      ReplaceCrlfOnlyDropsCr(s[1..]);
      DropCrAppend([s[0]], ReplaceCrlf(s[1..]));
      assert '\r' !in s ==> '\r' !in s[1..];
    }
  }

  // ---------------------------------------------------------------------------
  // Splitting on blank lines: `split(/\n\s*\n/)`

  /** A blank-line separator from the line break at `q` to the one at `k`: only
      white space in between. */
  predicate BlankLineAt(s: string, q: int, k: int) {
    0 <= q < k < |s| && s[q] == '\n' && s[k] == '\n' && forall m | q < m < k :: IsSpace(s[m])
  }

  predicate HasBlankLine(s: string) {
    exists q, k | 0 <= q < k < |s| :: BlankLineAt(s, q, k)
  }

  /** The end of the white-space run that starts at `i`. */
  function SpaceRunEnd(s: string, i: nat): (r: nat)
    requires i <= |s|
    ensures i <= r <= |s|
    ensures forall m | i <= m < r :: IsSpace(s[m])
    ensures r == |s| || !IsSpace(s[r])
    decreases |s| - i
  {
    if i == |s| || !IsSpace(s[i]) then i else SpaceRunEnd(s, i + 1)
  }

  /** The last line break in `s[lo..hi]`. */
  function LastNewline(s: string, lo: nat, hi: nat): (r: Option<nat>)
    requires lo <= hi <= |s|
    ensures r.Some? ==> lo <= r.value < hi && s[r.value] == '\n' && forall m | r.value < m < hi :: s[m] != '\n'
    ensures r.None? ==> forall m | lo <= m < hi :: s[m] != '\n'
    decreases hi - lo
  {
    if hi == lo then None
    else if s[hi - 1] == '\n' then Some(hi - 1)
    else LastNewline(s, lo, hi - 1)
  }

  /** Where the separator pattern matches at `q`: `\s*` first takes the whole run
      of white space after the line break and then gives characters back until a
      line break follows, so the match ends after the LAST line break of that run. */
  function BlankMatch(s: string, q: nat): (r: Option<nat>)
    requires q <= |s|
    ensures r.Some? ==> q + 2 <= r.value <= |s| && BlankLineAt(s, q, r.value - 1)
  {
    if q < |s| && s[q] == '\n' then
      match LastNewline(s, q + 1, SpaceRunEnd(s, q + 1))
      case None => None
      case Some(k) => Some(k + 1)
    else None
  }

  /** The pattern matches wherever a blank line starts. */
  lemma BlankMatchComplete(s: string, q: nat, k: nat)
    requires BlankLineAt(s, q, k)
    ensures BlankMatch(s, q).Some?
  {
    var e := SpaceRunEnd(s, q + 1);
    assert k < e;
  }

  /** ECMAScript's split loop: `p` is where the current piece starts and `q` the
      position being tried. */
  function SplitFrom(s: string, p: nat, q: nat): (r: seq<string>)
    requires p <= q <= |s|
    ensures |r| >= 1
    decreases |s| - q
  {
    if q >= |s| then [s[p..]]
    else match BlankMatch(s, q)
      case None => SplitFrom(s, p, q + 1)
      case Some(e) => [s[p..q]] + SplitFrom(s, e, e)
  }

  function SplitOnBlankLines(s: string): (r: seq<string>)
    ensures |r| >= 1
  {
    SplitFrom(s, 0, 0)
  }

  /** The text each separator match covered, in order. */
  function SeparatorsFrom(s: string, p: nat, q: nat): (r: seq<string>)
    requires p <= q <= |s|
    ensures |r| + 1 == |SplitFrom(s, p, q)|
    decreases |s| - q
  {
    if q >= |s| then []
    else match BlankMatch(s, q)
      case None => SeparatorsFrom(s, p, q + 1)
      case Some(e) => [s[q..e]] + SeparatorsFrom(s, e, e)
  }

  function BlankSeparators(s: string): (r: seq<string>)
    ensures |r| + 1 == |SplitOnBlankLines(s)|
  {
    SeparatorsFrom(s, 0, 0)
  }

  /** What the pattern matches: a line break, white space, and a last line
      break. */
  predicate BlankSeparator(sep: string) {
    |sep| >= 2 && sep[0] == '\n' && sep[|sep| - 1] == '\n' && AllSpace(sep)
  }

  /** The pieces with the separators put back between them. */
  function Interleave(pieces: seq<string>, seps: seq<string>): string
    requires |seps| + 1 == |pieces|
    decreases |seps|
  {
    if |seps| == 0 then pieces[0] else pieces[0] + seps[0] + Interleave(pieces[1..], seps[1..])
  }

  lemma InterleaveCons(a: string, b: string, pieces: seq<string>, seps: seq<string>)
    requires |seps| + 1 == |pieces|
    ensures Interleave([a] + pieces, [b] + seps) == a + b + Interleave(pieces, seps)
  {
    assert ([a] + pieces)[1..] == pieces && ([b] + seps)[1..] == seps;
  }

  /** A match of the pattern covers a blank-line separator. */
  lemma BlankMatchShape(s: string, q: nat, e: nat)
    requires q <= |s| && BlankMatch(s, q) == Some(e)
    ensures BlankSeparator(s[q..e])
  {
    var sep := s[q..e];
    forall m | 0 <= m < |sep| ensures IsSpace(sep[m]) {
      assert sep[m] == s[q + m];
    }
  }

  /** One step of the split loop where the pattern matches at `q`. */
  lemma SplitFromCut(s: string, p: nat, q: nat, e: nat)
    requires p <= q < |s| && BlankMatch(s, q) == Some(e)
    ensures SplitFrom(s, p, q) == [s[p..q]] + SplitFrom(s, e, e)
    ensures SeparatorsFrom(s, p, q) == [s[q..e]] + SeparatorsFrom(s, e, e)
  {
  }

  /** The split loses nothing: the pieces, with the matched separators put back
      between them, rebuild the text from where the current piece starts. */
  lemma {:induction false} SplitFromRebuild(s: string, p: nat, q: nat)
    requires p <= q <= |s|
    ensures Interleave(SplitFrom(s, p, q), SeparatorsFrom(s, p, q)) == s[p..]
    ensures forall i | 0 <= i < |SeparatorsFrom(s, p, q)| :: BlankSeparator(SeparatorsFrom(s, p, q)[i])
    decreases |s| - q
  {
    if q < |s| {
      match BlankMatch(s, q)
      case None => SplitFromRebuild(s, p, q + 1);
      case Some(e) =>
        SplitFromRebuild(s, e, e);
        SplitFromCut(s, p, q, e);
        var rest, seps := SplitFrom(s, e, e), SeparatorsFrom(s, e, e);
        InterleaveCons(s[p..q], s[q..e], rest, seps);
        SliceThree(s, p, q, e);
        BlankMatchShape(s, q, e);
        var all := SeparatorsFrom(s, p, q);
        forall i | 0 <= i < |all| ensures BlankSeparator(all[i]) {
          if i > 0 { assert all[i] == seps[i - 1]; }
        }
    }
  }

  lemma SliceThree(s: string, p: nat, q: nat, e: nat)
    requires p <= q <= e <= |s|
    ensures s[p..] == s[p..q] + s[q..e] + s[e..]
  {
  }

  /** A blank line inside a piece of `s` is a blank line of `s`. */
  lemma BlankLineShift(s: string, p: nat, q: nat, a: int, b: int)
    requires p <= q <= |s| && BlankLineAt(s[p..q], a, b)
    ensures BlankLineAt(s, p + a, p + b)
  {
    var t := s[p..q];
    assert t[a] == s[p + a] && t[b] == s[p + b];
    forall m | p + a < m < p + b ensures IsSpace(s[m]) {
      assert t[m - p] == s[m];
    }
  }

  /** A piece that the loop let pass without a match holds no blank line. */
  lemma PieceNoBlank(s: string, p: nat, stop: nat)
    requires p <= stop <= |s|
    requires forall m | p <= m < stop :: BlankMatch(s, m).None?
    ensures !HasBlankLine(s[p..stop])
  {
    if HasBlankLine(s[p..stop]) {
      var a, b :| 0 <= a < b < |s[p..stop]| && BlankLineAt(s[p..stop], a, b);
      BlankLineShift(s, p, stop, a, b);
      BlankMatchComplete(s, p + a, p + b);
      assert false;
    }
  }

  lemma {:induction false} SplitFromNoBlank(s: string, p: nat, q: nat)
    requires p <= q <= |s|
    requires forall m | p <= m < q :: BlankMatch(s, m).None?
    ensures forall i | 0 <= i < |SplitFrom(s, p, q)| :: !HasBlankLine(SplitFrom(s, p, q)[i])
    decreases |s| - q
  {
    var r := SplitFrom(s, p, q);
    if q >= |s| {
      PieceNoBlank(s, p, |s|);
      assert r == [s[p..]];
      assert s[p..] == s[p..|s|];
    } else {
      match BlankMatch(s, q)
      case None =>
        SplitFromNoBlank(s, p, q + 1);
      case Some(e) =>
        PieceNoBlank(s, p, q);
        SplitFromNoBlank(s, e, e);
        SplitFromCut(s, p, q, e);
        var rest := SplitFrom(s, e, e);
        forall i | 0 <= i < |r| ensures !HasBlankLine(r[i]) {
          if i > 0 { assert r[i] == rest[i - 1]; }
        }
    }
  }

  lemma {:induction false} SplitFromWhole(s: string, p: nat, q: nat)
    requires p <= q <= |s|
    requires forall m | q <= m < |s| :: BlankMatch(s, m).None?
    ensures SplitFrom(s, p, q) == [s[p..]]
    decreases |s| - q
  {
    if q < |s| { SplitFromWhole(s, p, q + 1); }
  }

  lemma {:induction false} SplitFromSeveral(s: string, p: nat, q: nat, m: nat)
    requires p <= q <= m < |s| && BlankMatch(s, m).Some?
    ensures |SplitFrom(s, p, q)| > 1
    decreases |s| - q
  {
    if BlankMatch(s, q).None? { SplitFromSeveral(s, p, q + 1, m); }
  }

  /** No piece contains a blank line, the pieces with the matched separators
      between them rebuild the text, and the text falls apart into more than one
      piece exactly when it contains a blank line. */
  lemma SplitOnBlankLinesSpec(s: string)
    ensures forall i | 0 <= i < |SplitOnBlankLines(s)| :: !HasBlankLine(SplitOnBlankLines(s)[i])
    ensures Interleave(SplitOnBlankLines(s), BlankSeparators(s)) == s
    ensures forall i | 0 <= i < |BlankSeparators(s)| :: BlankSeparator(BlankSeparators(s)[i])
    ensures |SplitOnBlankLines(s)| > 1 <==> HasBlankLine(s)
    ensures !HasBlankLine(s) ==> SplitOnBlankLines(s) == [s]
  {
    SplitFromNoBlank(s, 0, 0);
    SplitFromRebuild(s, 0, 0);
    assert s[0..] == s;
    if HasBlankLine(s) {
      var q: int, k: int :| 0 <= q < k < |s| && BlankLineAt(s, q, k);
      BlankMatchComplete(s, q, k);
      SplitFromSeveral(s, 0, 0, q);
    } else {
      forall m | 0 <= m < |s| ensures BlankMatch(s, m).None? {
        if BlankMatch(s, m).Some? { assert false; }
      }
      SplitFromWhole(s, 0, 0);
      assert s[0..] == s;
    }
  }

  // ---------------------------------------------------------------------------
  // Chunks and blocks

  /** `/^#+\s/.test(chunk)`: one or more `#` and then white space. */
  predicate MarkdownHeader(c: string) {
    exists k | 1 <= k < |c| :: IsSpace(c[k]) && forall m | 0 <= m < k :: c[m] == '#'
  }

  /** How many `#` the text starts with. */
  function LeadingHashes(c: string): (r: nat)
    ensures r <= |c| && (forall m | 0 <= m < r :: c[m] == '#') && (r == |c| || c[r] != '#')
  {
    if |c| > 0 && c[0] == '#' then 1 + LeadingHashes(c[1..]) else 0
  }

  /** The regular expression's test: after the greedy run of `#` comes a white-space
      character (backtracking into the run cannot help, since `#` is not white space). */
  function IsMarkdownHeader(c: string): (r: bool)
    ensures r <==> MarkdownHeader(c)
  {
    HashRunDecides(c);
    var n := LeadingHashes(c);
    1 <= n < |c| && IsSpace(c[n])
  }

  lemma HashRunDecides(c: string)
    ensures MarkdownHeader(c) <==> 1 <= LeadingHashes(c) < |c| && IsSpace(c[LeadingHashes(c)])
  {
    var n := LeadingHashes(c);
    if MarkdownHeader(c) {
      var k :| 1 <= k < |c| && IsSpace(c[k]) && forall m | 0 <= m < k :: c[m] == '#';
      assert k == n;
    }
  }

  /** A blank line survives neither in a trimmed piece. */
  lemma TrimKeepsNoBlank(s: string)
    requires !HasBlankLine(s)
    ensures !HasBlankLine(Trim(s))
  {
    var i := TrimInfix(s);
    var t := Trim(s);
    if HasBlankLine(t) {
      var a, b :| BlankLineAt(t, a, b);
      assert t == s[i..i + |t|];
      BlankLineShift(s, i, i + |t|, a, b);
      assert false;
    }
  }

  /** `.map(chunk => chunk.trim()).filter(chunk => chunk.length > 0)` */
  function Chunks(pieces: seq<string>): (r: seq<string>)
    ensures |r| <= |pieces|
    ensures forall i | 0 <= i < |r| :: r[i] != "" && Trimmed(r[i]) && exists j | 0 <= j < |pieces| :: r[i] == Trim(pieces[j])
  {
    if |pieces| == 0 then []
    else
      var rest := Chunks(pieces[1..]);
      assert forall i | 0 <= i < |rest| :: exists j | 0 <= j < |pieces| :: rest[i] == Trim(pieces[j]) by {
        forall i | 0 <= i < |rest| ensures exists j | 0 <= j < |pieces| :: rest[i] == Trim(pieces[j]) {
          var j :| 0 <= j < |pieces[1..]| && rest[i] == Trim(pieces[1..][j]);
          assert pieces[1..][j] == pieces[j + 1];
        }
      }
      if Trim(pieces[0]) == "" then rest else [Trim(pieces[0])] + rest
  }

  predicate NonEmpty(c: string) { c != "" }

  /** `.map(chunk => chunk.trim())` */
  function TrimAll(pieces: seq<string>): (r: seq<string>)
    ensures |r| == |pieces| && forall i | 0 <= i < |r| :: r[i] == Trim(pieces[i])
  {
    seq(|pieces|, i requires 0 <= i < |pieces| => Trim(pieces[i]))
  }

  /** The chunks are exactly the non-empty trimmed pieces, in the order of the
      pieces. */
  lemma {:induction false} ChunksFilter(pieces: seq<string>)
    ensures Chunks(pieces) == Filter(TrimAll(pieces), NonEmpty)
  {
    if |pieces| > 0 {
      ChunksFilter(pieces[1..]);
      assert TrimAll(pieces)[1..] == TrimAll(pieces[1..]);
      assert TrimAll(pieces)[0] == Trim(pieces[0]);
    }
  }

  /** The chunks of a text: its pieces between blank lines, trimmed, without the
      empty ones. */
  function TextChunks(text: string): (r: seq<string>)
    ensures r == Filter(TrimAll(SplitOnBlankLines(ReplaceCrlf(text))), NonEmpty)
  {
    ChunksFilter(SplitOnBlankLines(ReplaceCrlf(text)));
    Chunks(SplitOnBlankLines(ReplaceCrlf(text)))
  }

  /** A fresh block for a chunk, with the id the id supplier hands out. */
  function NewBlock(id: string, chunk: string): Block {
    Block(id, chunk, "", false, false, None, None, if IsMarkdownHeader(chunk) then Header else Text, 0)
  }

  /** `splitTextIntoBlocks`. `ids(k)` stands for the k-th call of `generateId`. */
  function SplitTextIntoBlocks(text: string, ids: nat -> string): (r: seq<Block>)
    ensures |r| == |TextChunks(text)|
    ensures forall k | 0 <= k < |r| ::
      && r[k].id == ids(k)
      && r[k].original == TextChunks(text)[k]
      && r[k].original != "" && Trimmed(r[k].original)
      && !HasBlankLine(r[k].original)
      && r[k].translated == "" && !r[k].isEdited && !r[k].isLoading
      && (r[k].kind == Header <==> MarkdownHeader(r[k].original))
      && r[k].kind != Separator
      && r[k].chapterIndex == 0
  {
    var pieces := SplitOnBlankLines(ReplaceCrlf(text));
    SplitOnBlankLinesSpec(ReplaceCrlf(text));
    var chunks := TextChunks(text);
    forall k | 0 <= k < |chunks| ensures !HasBlankLine(chunks[k]) {
      var j :| 0 <= j < |pieces| && chunks[k] == Trim(pieces[j]);
      TrimKeepsNoBlank(pieces[j]);
    }
    seq(|chunks|, k requires 0 <= k < |chunks| => NewBlock(ids(k), chunks[k]))
  }

  /** A text without a blank line becomes one block holding the whole trimmed
      text, or no block when it is all white space. */
  lemma SplitSingleParagraph(text: string, ids: nat -> string)
    requires !HasBlankLine(ReplaceCrlf(text))
    ensures AllSpace(ReplaceCrlf(text)) ==> SplitTextIntoBlocks(text, ids) == []
    ensures !AllSpace(ReplaceCrlf(text)) ==> SplitTextIntoBlocks(text, ids) == [NewBlock(ids(0), Trim(ReplaceCrlf(text)))]
  {
    var s := ReplaceCrlf(text);
    SplitOnBlankLinesSpec(s);
    TrimEmptyIff(s);
    assert Chunks([s]) == if Trim(s) == "" then [] else [Trim(s)] by {
      assert [s][1..] == [];
    }
  }

  // ---------------------------------------------------------------------------
  // `fallbackParse`

  /** `.` at `i` starts a final extension: at least one character follows and
      none of them is `.` or `/`. */
  predicate ExtensionAt(s: string, i: int) {
    0 <= i < |s| - 1 && s[i] == '.' && forall m | i < m < |s| :: s[m] != '.' && s[m] != '/'
  }

  function LastIndexOfChar(s: string, c: char): (r: Option<nat>)
    ensures r.Some? ==> r.value < |s| && s[r.value] == c && forall m | r.value < m < |s| :: s[m] != c
    ensures r.None? ==> c !in s
  {
    if |s| == 0 then None
    else if s[|s| - 1] == c then Some(|s| - 1)
    else
      var r := LastIndexOfChar(s[..|s| - 1], c);
      assert r.None? ==> forall m | 0 <= m < |s| - 1 :: s[m] == s[..|s| - 1][m];
      r
  }

  /** `filename.replace(/\.[^/.]+$/, "")`: the final extension is removed; a name
      without one is kept. */
  function StripExtension(name: string): (r: string)
    ensures StartsWith(name, r)
    ensures r == name <==> forall i :: !ExtensionAt(name, i)
    ensures r != name ==> ExtensionAt(name, |r|)
  {
    match LastIndexOfChar(name, '.')
    case None => name
    case Some(i) =>
      if i + 1 < |name| && forall m | i < m < |name| :: name[m] != '/' then
        assert ExtensionAt(name, i);
        name[..i]
      else
        name
  }

  /** Stripping again removes the next extension along, if any: ".tar.gz" loses
      one part per call. */
  lemma StripExtensionTwice()
    ensures StripExtension("a.tar.gz") == "a.tar"
    ensures StripExtension(StripExtension("a.tar.gz")) == "a"
  {
    assert ExtensionAt("a.tar.gz", 5);
    assert ExtensionAt("a.tar", 1);
  }

  /** What a parser hands over: the work's metadata and its blocks. */
  datatype ParsedWork = ParsedWork(
    title: string,
    author: string,
    fandom: string,
    tags: seq<string>,
    url: Option<string>,
    blocks: seq<Block>)

  const FALLBACK_UNKNOWN: string := "Unknown"

  /** `fallbackParse`: blocks from the plain-text split, numbered by chapter; the
      file name without extension as title; placeholder author and fandom. */
  function FallbackParse(filename: string, content: string, ids: nat -> string): (r: ParsedWork)
    ensures r.blocks == Reindex(SplitTextIntoBlocks(content, ids))
    ensures r.title == StripExtension(filename)
    ensures r.author == FALLBACK_UNKNOWN && r.fandom == FALLBACK_UNKNOWN
    ensures r.tags == [] && r.url == Some("")
  {
    ParsedWork(StripExtension(filename), FALLBACK_UNKNOWN, FALLBACK_UNKNOWN, [], Some(""), Reindex(SplitTextIntoBlocks(content, ids)))
  }

  /** The blocks of a plain-text parse keep every field the split gave them except
      the chapter number. */
  lemma FallbackParseBlocks(filename: string, content: string, ids: nat -> string)
    ensures var bs := SplitTextIntoBlocks(content, ids);
      && |FallbackParse(filename, content, ids).blocks| == |bs|
      && forall k | 0 <= k < |bs| ::
        FallbackParse(filename, content, ids).blocks[k].(chapterIndex := 0) == bs[k]
  {
    ReindexSteps(SplitTextIntoBlocks(content, ids));
  }

  // ---------------------------------------------------------------------------
  // The archive URL rewrite of `fetchAO3FromProxy`

  const WORKS_PATH: string := "archiveofourown.org/works/"
  const FULL_WORK: string := "view_full_work=true"

  /** Ask the archive for every chapter: a work URL without the parameter gets it,
      after `&` when the URL already has a query and after `?` otherwise. */
  function AddFullWorkParam(url: string): (r: string)
    ensures StartsWith(r, url)
    ensures Contains(url, WORKS_PATH) ==> Contains(r, FULL_WORK)
    ensures !Contains(url, WORKS_PATH) || Contains(url, FULL_WORK) ==> r == url
    ensures r != url ==> r == url + (if '?' in url then "&" else "?") + FULL_WORK
  {
    if Contains(url, WORKS_PATH) && !Contains(url, FULL_WORK) then
      var r := url + (if '?' in url then "&" else "?") + FULL_WORK;
      assert OccursAt(r, FULL_WORK, |url| + 1);
      assert r[..|url|] == url;
      r
    else url
  }

  /** Text that occurs in a string still occurs once more is appended. */
  lemma ContainsAppend(s: string, t: string, p: string)
    requires Contains(s, p)
    ensures Contains(s + t, p)
  {
    var i: nat :| i <= |s| && OccursAt(s, p, i);
    assert (s + t)[i..i + |p|] == s[i..i + |p|];
    assert OccursAt(s + t, p, i);
  }

  /** Rewriting a rewritten URL changes nothing. */
  lemma AddFullWorkParamIdempotent(url: string)
    ensures AddFullWorkParam(AddFullWorkParam(url)) == AddFullWorkParam(url)
  {
    var r := AddFullWorkParam(url);
    if r != url {
      assert Contains(url, WORKS_PATH);
      ContainsAppend(url, (if '?' in url then "&" else "?") + FULL_WORK, WORKS_PATH);
      assert url + (if '?' in url then "&" else "?") + FULL_WORK == url + ((if '?' in url then "&" else "?") + FULL_WORK);
    }
  }
}
