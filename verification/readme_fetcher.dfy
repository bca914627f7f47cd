/** The README segmenter: `normalize_key` and the heading split at the end of
    `fetch_readme`, over the already-decoded README text. */
module ReadmeFetcher {
  import opened Results
  import opened Text
  import opened Sequences

  /** The reserved key for the text before the first heading. */
  const Introduction := "introduction"

  // ---------------------------------------------------------------------
  // normalize_key
  // ---------------------------------------------------------------------

  predicate IsHash(c: char) {
    c == '#'
  }

  predicate IsUnderscore(c: char) {
    c == '_'
  }

  /** `re.sub(r'^#+\s*', '', s)`: a leading run of '#' and the whitespace
      right after it. */
  function DropHeadingMarks(s: string): string {
    if |s| > 0 && s[0] == '#' then TrimLeft(TrimLeft(s, IsHash), IsSpace) else s
  }

  /** The characters `[\w\s-]` that survive `re.sub(r'[^\w\s-]', '', s)`. */
  predicate IsKeptInKey(c: char) {
    IsWordChar(c) || IsSpace(c) || c == '-'
  }

  function DropSymbols(s: string): (r: string)
    ensures forall i :: 0 <= i < |r| ==> IsKeptInKey(r[i])
  {
    if s == [] then []
    else (if IsKeptInKey(s[0]) then [s[0]] else []) + DropSymbols(s[1..])
  }

  function UnderscoreChar(c: char): char {
    if c == ' ' || c == '-' then '_' else c
  }

  /** `.replace(' ', '_').replace('-', '_')` */
  function Underscores(s: string): (r: string)
    ensures |r| == |s|
    ensures forall i :: 0 <= i < |s| ==> r[i] == UnderscoreChar(s[i])
  {
    if s == [] then [] else [UnderscoreChar(s[0])] + Underscores(s[1..])
  }

  /** No two adjacent underscores. */
  predicate NoDoubleUnderscore(s: string) {
    forall i :: 0 <= i < |s| - 1 ==> !(s[i] == '_' && s[i + 1] == '_')
  }

  /** `re.sub(r'_+', '_', s)` */
  function CollapseUnderscores(s: string): (r: string)
    ensures |s| > 0 ==> |r| > 0 && r[0] == s[0]
    ensures forall i :: 0 <= i < |r| ==> r[i] in s
    ensures NoDoubleUnderscore(r)
  {
    if |s| <= 1 then s
    else if s[0] == '_' && s[1] == '_' then CollapseUnderscores(s[1..])
    else [s[0]] + CollapseUnderscores(s[1..])
  }

  /** The characters a normalized key is made of: lower-case ASCII letters,
      digits, underscores, and whitespace other than the plain space (only
      the space is turned into an underscore). */
  predicate IsKeyChar(c: char) {
    'a' <= c <= 'z' || IsDigit(c) || c == '_' || (IsSpace(c) && c != ' ')
  }

  /** Cutting a piece out of a string keeps its characters and never joins
      two underscores. */
  lemma SliceKeepsKeyShape(s: string, lo: nat, hi: nat)
    requires lo <= hi <= |s|
    requires NoDoubleUnderscore(s)
    requires AllKeyChars(s)
    ensures NoDoubleUnderscore(s[lo..hi])
    ensures AllKeyChars(s[lo..hi])
  {
  }

  lemma KeptCharBecomesKeyChar(c: char)
    requires IsKeptInKey(c)
    ensures IsKeyChar(UnderscoreChar(LowerChar(c)))
  {
  }

  /** The symbol-free, lower-case, underscored form of a stripped heading,
      before underscore runs are collapsed. */
  function SnakeCase(bare: string): (r: string)
    ensures AllKeyChars(r)
  {
    var kept := DropSymbols(bare);
    var r := Underscores(Lower(kept));
    forall i | 0 <= i < |r|
      ensures IsKeyChar(r[i])
    {
      KeptCharBecomesKeyChar(kept[i]);
    }
    r
  }

  predicate AllKeyChars(s: string) {
    forall i :: 0 <= i < |s| ==> IsKeyChar(s[i])
  }

  /** `re.sub(r'_+', '_', s)` on key characters stays within key characters. */
  function CollapseKeyChars(s: string): (r: string)
    requires AllKeyChars(s)
    ensures AllKeyChars(r) && NoDoubleUnderscore(r)
  {
    var r := CollapseUnderscores(s);
    assert forall i :: 0 <= i < |r| ==> r[i] in s;
    r
  }

  /** `s.strip('_')` on a string of key characters. */
  function StripUnderscores(s: string): (r: string)
    requires AllKeyChars(s) && NoDoubleUnderscore(s)
    ensures r == [] || (r[0] != '_' && r[|r| - 1] != '_')
    ensures AllKeyChars(r) && NoDoubleUnderscore(r)
  {
    var left := TrimLeft(s, IsUnderscore);
    SliceKeepsKeyShape(s, |s| - |left|, |s|);
    var r := TrimRight(left, IsUnderscore);
    SliceKeepsKeyShape(left, 0, |r|);
    r
  }

  /** `normalize_key(text)`: a heading line turned into a dictionary key. */
  function NormalizeKey(heading: string): (key: string)
    ensures key == [] || (key[0] != '_' && key[|key| - 1] != '_')
    ensures NoDoubleUnderscore(key)
    ensures AllKeyChars(key)
  {
    StripUnderscores(CollapseKeyChars(SnakeCase(Strip(DropHeadingMarks(heading)))))
  }

  /** A key already in canonical form: lower-case ASCII letters, digits and
      single underscores, with no underscore at either end. */
  predicate IsPlainKey(k: string) {
    && (forall i :: 0 <= i < |k| ==> 'a' <= k[i] <= 'z' || IsDigit(k[i]) || k[i] == '_')
    && (k == [] || (k[0] != '_' && k[|k| - 1] != '_'))
    && NoDoubleUnderscore(k)
  }

  lemma {:induction false} DropSymbolsKeepsKeyText(s: string)
    requires forall i :: 0 <= i < |s| ==> IsKeptInKey(s[i])
    ensures DropSymbols(s) == s
  {
    if s != [] {
      DropSymbolsKeepsKeyText(s[1..]);
    }
  }

  lemma {:induction false} UnderscoresKeepPlainText(s: string)
    requires forall i :: 0 <= i < |s| ==> s[i] != ' ' && s[i] != '-'
    ensures Underscores(s) == s
  {
    if s != [] {
      UnderscoresKeepPlainText(s[1..]);
    }
  }

  lemma {:induction false} CollapseKeepsSingleUnderscores(s: string)
    requires NoDoubleUnderscore(s)
    ensures CollapseUnderscores(s) == s
  {
    if |s| > 1 {
      assert NoDoubleUnderscore(s[1..]) by {
        forall i | 0 <= i < |s[1..]| - 1
          ensures !(s[1..][i] == '_' && s[1..][i + 1] == '_')
        {
          assert s[1..][i] == s[i + 1] && s[1..][i + 1] == s[i + 2];
        }
      }
      CollapseKeepsSingleUnderscores(s[1..]);
      assert !(s[0] == '_' && s[1] == '_');
      assert s == [s[0]] + s[1..];
    }
  }

  lemma PlainKeyHasNoMarks(k: string)
    requires IsPlainKey(k)
    ensures Strip(DropHeadingMarks(k)) == k
  {
    assert DropHeadingMarks(k) == k;
    StripOfStripped(k);
  }

  lemma PlainKeyIsItsOwnSnakeCase(k: string)
    requires IsPlainKey(k)
    ensures SnakeCase(k) == k
  {
    DropSymbolsKeepsKeyText(k);
    LowerKeepsLowerCase(k);
    UnderscoresKeepPlainText(k);
  }

  lemma PlainKeyChars(k: string)
    requires IsPlainKey(k)
    ensures AllKeyChars(k)
  {
  }

  lemma CollapseKeepsPlainKey(k: string)
    requires IsPlainKey(k)
    ensures AllKeyChars(k) && CollapseKeyChars(k) == k
  {
    PlainKeyChars(k);
    CollapseKeepsSingleUnderscores(k);
  }

  lemma StripKeepsPlainKey(k: string)
    requires IsPlainKey(k)
    ensures AllKeyChars(k) && StripUnderscores(k) == k
  {
    PlainKeyChars(k);
    assert TrimLeft(k, IsUnderscore) == k;
    assert TrimRight(k, IsUnderscore) == k;
  }

  /** Normalizing a key that is already canonical gives it back unchanged,
      so canonical keys are fixed points of the normalization. */
  lemma NormalizeKeyFixesPlainKeys(k: string)
    requires IsPlainKey(k)
    ensures NormalizeKey(k) == k
  {
    PlainKeyHasNoMarks(k);
    PlainKeyIsItsOwnSnakeCase(k);
    CollapseKeepsPlainKey(k);
    StripKeepsPlainKey(k);
  }

  // ---------------------------------------------------------------------
  // The example heading from the source's own documentation, step by step
  // ---------------------------------------------------------------------

  /** A heading line of marks, one space and a stripped title reduces to
      the title. */
  lemma HeadingBareText(marks: string, title: string)
    requires |marks| > 0 && forall i :: 0 <= i < |marks| ==> marks[i] == '#'
    requires |title| > 0 && title[0] != '#' && IsStripped(title)
    ensures Strip(DropHeadingMarks(marks + " " + title)) == title
  {
    var line := marks + " " + title;
    assert line == marks + (" " + title);
    assert line[0] == '#';
    TrimLeftAfter(marks, " " + title, IsHash);
    TrimLeftAfter(" ", title, IsSpace);
    StripOfStripped(title);
  }

  lemma QuickStartBareText()
    ensures Strip(DropHeadingMarks("## 🚀 Quick Start")) == "🚀 Quick Start"
  {
    assert "##" + " " + "🚀 Quick Start" == "## 🚀 Quick Start";
    HeadingBareText("##", "🚀 Quick Start");
  }

  lemma SymbolDropped(sym: char, t: string)
    requires !IsKeptInKey(sym)
    requires forall i :: 0 <= i < |t| ==> IsKeptInKey(t[i])
    ensures DropSymbols([sym] + t) == t
  {
    assert ([sym] + t)[1..] == t;
    DropSymbolsKeepsKeyText(t);
  }

  lemma QuickStartSymbolDropped()
    ensures DropSymbols("🚀 Quick Start") == " Quick Start"
  {
    assert "🚀 Quick Start" == ['🚀'] + " Quick Start";
    SymbolDropped('🚀', " Quick Start");
  }

  /** Lower-casing compared character by character, without unfolding
      `Lower` on a literal. */
  lemma LowerIs(s: string, t: string)
    requires |s| == |t| && forall i :: 0 <= i < |s| ==> LowerChar(s[i]) == t[i]
    ensures Lower(s) == t
  {
  }

  lemma QuickStartLowered()
    ensures Lower(" Quick Start") == " quick start"
  {
    LowerIs(" Quick Start", " quick start");
  }

  lemma UnderscoresAre(s: string, t: string)
    requires |s| == |t| && forall i :: 0 <= i < |s| ==> UnderscoreChar(s[i]) == t[i]
    ensures Underscores(s) == t
  {
  }

  lemma QuickStartUnderscored()
    ensures Underscores(" quick start") == "_quick_start"
  {
    UnderscoresAre(" quick start", "_quick_start");
  }

  lemma QuickStartSnakeCase()
    ensures SnakeCase("🚀 Quick Start") == "_quick_start"
  {
    QuickStartSymbolDropped();
    QuickStartLowered();
    QuickStartUnderscored();
  }

  lemma QuickStartCollapsed()
    ensures CollapseKeyChars("_quick_start") == "_quick_start"
  {
    assert NoDoubleUnderscore("_quick_start");
    CollapseKeepsSingleUnderscores("_quick_start");
  }

  lemma QuickStartTrimmed()
    ensures StripUnderscores("_quick_start") == "quick_start"
  {
  }

  /** `'## 🚀 Quick Start'` becomes `quick_start`: marks, emoji and outer
      separators go, the words are lower-cased and joined by one underscore. */
  lemma QuickStartKey()
    ensures NormalizeKey("## 🚀 Quick Start") == "quick_start"
  {
    QuickStartBareText();
    QuickStartSnakeCase();
    QuickStartCollapsed();
    QuickStartTrimmed();
  }

  // ---------------------------------------------------------------------
  // Heading split: re.split(r'(^#{1,6}\s+.*$)', content, flags=re.MULTILINE)
  // ---------------------------------------------------------------------

  /** The number of consecutive '#' starting at `p`. */
  function HashRun(s: string, p: nat): (n: nat)
    requires p <= |s|
    ensures p + n <= |s|
    ensures forall i :: p <= i < p + n ==> s[i] == '#'
    ensures p + n == |s| || s[p + n] != '#'
    decreases |s| - p
  {
    if p < |s| && s[p] == '#' then 1 + HashRun(s, p + 1) else 0
  }

  /** `^` under MULTILINE: the start of the text or just after a line feed. */
  predicate LineStart(s: string, p: nat)
    requires p <= |s|
  {
    p == 0 || s[p - 1] == '\n'
  }

  /** `#{1,6}\s` matches at `p`. Backtracking may shorten the run of '#',
      but then the next character is a '#' again, so the whole run must be
      at most six long and be followed by whitespace. */
  predicate HeadingMarkAt(s: string, p: nat)
    requires p <= |s|
  {
    var n := HashRun(s, p);
    1 <= n <= 6 && p + n < |s| && IsSpace(s[p + n])
  }

  /** A heading line starts at `p`. */
  predicate HeadingAt(s: string, p: nat)
    requires p <= |s|
  {
    LineStart(s, p) && HeadingMarkAt(s, p)
  }

  /** The first index at or after `p` whose character fails `keep`, or `|s|`. */
  function SkipWhile(s: string, p: nat, keep: char -> bool): (q: nat)
    requires p <= |s|
    ensures p <= q <= |s|
    ensures forall i {:trigger keep(s[i])} :: p <= i < q ==> keep(s[i])
    ensures q == |s| || !keep(s[q])
    decreases |s| - p
  {
    if p < |s| && keep(s[p]) then SkipWhile(s, p + 1, keep) else p
  }

  predicate NotLineFeed(c: char) {
    c != '\n'
  }

  /** Where the match of `^#{1,6}\s+.*$` starting at `p` ends: `\s+` takes
      the whole whitespace run, line feeds included, and `.*$` then runs to
      the next line feed or the end of the text. */
  function HeadingEnd(s: string, p: nat): (e: nat)
    requires p <= |s| && HeadingMarkAt(s, p)
    ensures p < e <= |s|
    ensures e == |s| || s[e] == '\n'
  {
    SkipWhile(s, SkipWhile(s, p + HashRun(s, p), IsSpace), NotLineFeed)
  }

  /** The first heading line starting at or after `pos`. */
  function NextHeading(s: string, pos: nat): (r: Option<nat>)
    requires pos <= |s|
    ensures r.None? ==> forall q :: pos <= q <= |s| ==> !HeadingAt(s, q)
    ensures r.Some? ==> pos <= r.value < |s| && HeadingAt(s, r.value)
    ensures r.Some? ==> forall q :: pos <= q < r.value ==> !HeadingAt(s, q)
    decreases |s| - pos
  {
    if pos == |s| then None
    else if HeadingAt(s, pos) then Some(pos)
    else NextHeading(s, pos + 1)
  }

  /** The pieces joined back together. */
  function Concat(parts: seq<string>): string {
    if parts == [] then "" else parts[0] + Concat(parts[1..])
  }

  /** A piece that the split returns as a heading: one to six '#' and then
      whitespace. */
  predicate IsHeadingText(h: string) {
    HeadingMarkAt(h, 0)
  }

  lemma {:induction false} HashRunOfPiece(s: string, lo: nat, hi: nat, p: nat)
    requires lo <= p <= hi <= |s|
    requires p + HashRun(s, p) < hi
    ensures HashRun(s[lo..hi], p - lo) == HashRun(s, p)
    decreases hi - p
  {
    if s[p] == '#' {
      HashRunOfPiece(s, lo, hi, p + 1);
    }
  }

  lemma ConcatOfPair(a: string, b: string, rest: seq<string>)
    ensures Concat([a, b] + rest) == a + (b + Concat(rest))
  {
    var parts := [a, b] + rest;
    assert parts[1..] == [b] + rest;
    assert parts[1..][1..] == rest;
  }

  /** The piece a heading match covers is heading text on its own. */
  lemma HeadingPieceIsHeadingText(s: string, p: nat)
    requires p <= |s| && HeadingMarkAt(s, p)
    ensures IsHeadingText(s[p..HeadingEnd(s, p)])
  {
    var e := HeadingEnd(s, p);
    HashRunOfPiece(s, p, e, p);
    assert s[p..e][HashRun(s, p)] == s[p + HashRun(s, p)];
  }

  /** The shape of a `re.split` result with one capturing group: an odd
      number of pieces, with the matched headings at the odd places. */
  predicate SplitShape(parts: seq<string>) {
    && |parts| % 2 == 1
    && forall j :: 0 <= j < |parts| && j % 2 == 1 ==> IsHeadingText(parts[j])
  }

  lemma PairKeepsSplitShape(a: string, b: string, rest: seq<string>)
    requires IsHeadingText(b) && SplitShape(rest)
    ensures SplitShape([a, b] + rest)
  {
    var parts := [a, b] + rest;
    forall j | 0 <= j < |parts| && j % 2 == 1
      ensures IsHeadingText(parts[j])
    {
      if j > 1 {
        assert parts[j] == rest[j - 2];
      }
    }
  }

  /** The split of a text without heading lines is that text alone. */
  lemma SinglePiece(t: string)
    ensures SplitShape([t]) && Concat([t]) == t
  {
    assert [t][1..] == [];
  }

  /** Putting the text before a heading and the heading in front of the
      split of the rest keeps the shape and the text. */
  lemma SplitStep(s: string, pos: nat, p: nat, e: nat, rest: seq<string>)
    requires pos <= p <= e <= |s|
    requires IsHeadingText(s[p..e]) && SplitShape(rest) && Concat(rest) == s[e..]
    ensures SplitShape([s[pos..p], s[p..e]] + rest)
    ensures Concat([s[pos..p], s[p..e]] + rest) == s[pos..]
  {
    ConcatOfPair(s[pos..p], s[p..e], rest);
    assert s[pos..] == s[pos..p] + (s[p..e] + s[e..]);
    PairKeepsSplitShape(s[pos..p], s[p..e], rest);
  }

  /** Where piece `j` starts in the joined text. */
  function Offset(parts: seq<string>, j: nat): nat
    requires j <= |parts|
  {
    if j == 0 then 0 else |parts[0]| + Offset(parts[1..], j - 1)
  }

  lemma {:induction false} OffsetBound(parts: seq<string>, j: nat)
    requires j < |parts|
    ensures Offset(parts, j) + |parts[j]| <= |Concat(parts)|
  {
    if j > 0 {
      OffsetBound(parts[1..], j - 1);
      assert parts[1..][j - 1] == parts[j];
    }
  }

  /** Where the heading match starting at `p` ends, or -1 when no heading
      line starts at `p`. */
  function MatchEnd(s: string, p: nat): (e: int)
    ensures e >= 0 <==> p <= |s| && HeadingAt(s, p)
  {
    if p <= |s| && HeadingAt(s, p) then HeadingEnd(s, p) else -1
  }

  /** Piece `j` is the stretch of the joined text from its offset on. */
  lemma {:induction false} PieceAtOffset(parts: seq<string>, j: nat)
    requires j < |parts|
    ensures Offset(parts, j) + |parts[j]| <= |Concat(parts)|
    ensures Concat(parts)[Offset(parts, j)..Offset(parts, j) + |parts[j]|] == parts[j]
  {
    OffsetBound(parts, j);
    var whole := Concat(parts);
    assert whole == parts[0] + Concat(parts[1..]);
    if j > 0 {
      PieceAtOffset(parts[1..], j - 1);
      assert parts[1..][j - 1] == parts[j];
      var o := Offset(parts[1..], j - 1);
      assert whole[|parts[0]| + o..|parts[0]| + o + |parts[j]|] == Concat(parts[1..])[o..o + |parts[j]|];
    }
  }

  lemma OffsetPair(a: string, b: string, rest: seq<string>, j: nat)
    requires 2 <= j <= |rest| + 2
    ensures Offset([a, b] + rest, 0) == 0
    ensures Offset([a, b] + rest, 1) == |a|
    ensures Offset([a, b] + rest, j) == |a| + |b| + Offset(rest, j - 2)
  {
    var parts := [a, b] + rest;
    assert parts[1..] == [b] + rest;
    assert parts[1..][1..] == rest;
  }

  /** `MatchEnd` on `s` as a function of the position. */
  function MatchEnds(s: string): nat -> int {
    (p: nat) => MatchEnd(s, p)
  }

  lemma MatchEndAtHeading(s: string, p: nat)
    requires p <= |s| && HeadingAt(s, p)
    ensures MatchEnd(s, p) == HeadingEnd(s, p)
  {
  }

  /** Every piece at an odd place of a split starting at `pos` ends where
      `end` says a piece starting at its offset ends. */
  ghost predicate OddPiecesEndAt(pos: nat, parts: seq<string>, end: nat -> int) {
    forall j: nat :: j < |parts| && j % 2 == 1 ==> PieceEndsAt(pos, parts, end, j)
  }

  /** Piece `j` of a split starting at `pos` ends where `end` says a piece
      starting at its offset ends. */
  ghost predicate PieceEndsAt(pos: nat, parts: seq<string>, end: nat -> int, j: nat)
    requires j < |parts|
  {
    pos + Offset(parts, j) + |parts[j]| == end(pos + Offset(parts, j))
  }

  /** Every piece at an odd place of a split of `s[pos..]` is the whole
      match of `^#{1,6}\s+.*$` that starts where the piece starts. */
  ghost predicate HeadingsAreMatches(s: string, pos: nat, parts: seq<string>) {
    OddPiecesEndAt(pos, parts, MatchEnds(s))
  }

  /** No heading line of `s` starts inside a piece at an even place of a
      split of `s[pos..]`. */
  ghost predicate BodiesAreHeadingFree(s: string, pos: nat, parts: seq<string>) {
    forall j, q :: 0 <= j < |parts| && j % 2 == 0 && pos + Offset(parts, j) <= q < pos + Offset(parts, j) + |parts[j]| && q <= |s| ==>
      !HeadingAt(s, q)
  }

  /** Piece `j >= 2` of `[a, b] + rest` is piece `j - 2` of `rest`, shifted
      by the first two pieces. */
  lemma PieceAfterPair(a: string, b: string, rest: seq<string>, j: nat)
    requires 2 <= j < |rest| + 2
    ensures ([a, b] + rest)[j] == rest[j - 2]
    ensures Offset([a, b] + rest, j) == |a| + |b| + Offset(rest, j - 2)
  {
    OffsetPair(a, b, rest, j);
  }

  /** A piece ending where `end` says, placed in front of a split of the
      rest whose odd pieces do so too, keeps that property. */
  lemma OddPiecesStep(pos: nat, front: string, head: string, rest: seq<string>, end: nat -> int)
    requires pos + |front| + |head| == end(pos + |front|)
    requires OddPiecesEndAt(pos + |front| + |head|, rest, end)
    ensures OddPiecesEndAt(pos, [front, head] + rest, end)
  {
    var parts := [front, head] + rest;
    forall j: nat | j < |parts| && j % 2 == 1
      ensures PieceEndsAt(pos, parts, end, j)
    {
      OddPieceStepAt(pos, front, head, rest, end, j);
    }
  }

  lemma OddPiecesStepTo(pos: nat, p: nat, e: nat, front: string, head: string, rest: seq<string>, end: nat -> int)
    requires pos + |front| == p && p + |head| == e && e == end(p)
    requires OddPiecesEndAt(e, rest, end)
    ensures OddPiecesEndAt(pos, [front, head] + rest, end)
  {
    OddPiecesStep(pos, front, head, rest, end);
  }

  lemma OddPieceStepAt(pos: nat, front: string, head: string, rest: seq<string>, end: nat -> int, j: nat)
    requires pos + |front| + |head| == end(pos + |front|)
    requires OddPiecesEndAt(pos + |front| + |head|, rest, end)
    requires j < |rest| + 2 && j % 2 == 1
    ensures PieceEndsAt(pos, [front, head] + rest, end, j)
  {
    if j == 1 {
      OffsetPair(front, head, rest, 2);
    } else {
      PieceAfterPair(front, head, rest, j);
      assert (j - 2) % 2 == 1;
      assert PieceEndsAt(pos + |front| + |head|, rest, end, j - 2);
    }
  }

  /** The heading placed in front of a correct split of the rest is the
      match at its own offset, and so are the headings of the rest. */
  lemma HeadingStepPlaces(s: string, pos: nat, p: nat, e: nat, rest: seq<string>)
    requires pos <= p <= e <= |s| && e == MatchEnd(s, p)
    requires HeadingsAreMatches(s, e, rest)
    ensures HeadingsAreMatches(s, pos, [s[pos..p], s[p..e]] + rest)
  {
    OddPiecesStepTo(pos, p, e, s[pos..p], s[p..e], rest, MatchEnds(s));
  }

  /** The text before the next heading holds no heading line, and neither
      do the bodies of a correct split of the rest. */
  lemma BodyStepPlaces(s: string, pos: nat, p: nat, e: nat, rest: seq<string>)
    requires pos <= p < e <= |s|
    requires forall q :: pos <= q < p ==> !HeadingAt(s, q)
    requires BodiesAreHeadingFree(s, e, rest)
    ensures BodiesAreHeadingFree(s, pos, [s[pos..p], s[p..e]] + rest)
  {
    var front, head := s[pos..p], s[p..e];
    var parts := [front, head] + rest;
    forall j, q | 0 <= j < |parts| && j % 2 == 0 && pos + Offset(parts, j) <= q < pos + Offset(parts, j) + |parts[j]| && q <= |s|
      ensures !HeadingAt(s, q)
    {
      if j == 0 {
        OffsetPair(front, head, rest, 2);
      } else {
        PieceAfterPair(front, head, rest, j);
        assert pos + Offset(parts, j) == e + Offset(rest, j - 2);
      }
    }
  }

  /** A text without heading lines, as one piece, is placed correctly. */
  lemma SinglePiecePlaces(s: string, pos: nat)
    requires pos <= |s|
    requires forall q :: pos <= q <= |s| ==> !HeadingAt(s, q)
    ensures HeadingsAreMatches(s, pos, [s[pos..]]) && BodiesAreHeadingFree(s, pos, [s[pos..]])
  {
    assert Offset([s[pos..]], 0) == 0;
  }

  /** `re.split` from index `pos` on: the text before the next heading,
      then alternately a heading and the text up to the following one. */
  function SplitFrom(s: string, pos: nat): (parts: seq<string>)
    requires pos <= |s|
    ensures SplitShape(parts)
    ensures Concat(parts) == s[pos..]
    decreases |s| - pos
  {
    match NextHeading(s, pos)
    case None =>
      SinglePiece(s[pos..]);
      [s[pos..]]
    case Some(p) =>
      var e := HeadingEnd(s, p);
      var rest := SplitFrom(s, e);
      HeadingPieceIsHeadingText(s, p);
      SplitStep(s, pos, p, e, rest);
      [s[pos..p], s[p..e]] + rest
  }

  /** Each heading piece of the split from `pos` is the heading match at
      its offset, and no heading line starts inside a body piece. */
  lemma {:induction false} SplitFromPlaces(s: string, pos: nat)
    requires pos <= |s|
    ensures HeadingsAreMatches(s, pos, SplitFrom(s, pos))
    ensures BodiesAreHeadingFree(s, pos, SplitFrom(s, pos))
    decreases |s| - pos
  {
    SplitFromUnfold(s, pos);
    match NextHeading(s, pos)
    case None =>
      SinglePiecePlaces(s, pos);
    case Some(p) =>
      var e := HeadingEnd(s, p);
      SplitFromPlaces(s, e);
      SplitFromStep(s, pos, p, SplitFrom(s, e));
  }

  /** The text up to the next heading and that heading's match, put in
      front of a correctly placed split of the rest, are correctly placed. */
  lemma SplitFromStep(s: string, pos: nat, p: nat, rest: seq<string>)
    requires pos <= p < |s| && HeadingAt(s, p)
    requires forall q :: pos <= q < p ==> !HeadingAt(s, q)
    requires HeadingsAreMatches(s, HeadingEnd(s, p), rest)
    requires BodiesAreHeadingFree(s, HeadingEnd(s, p), rest)
    ensures var parts := [s[pos..p], s[p..HeadingEnd(s, p)]] + rest;
      && HeadingsAreMatches(s, pos, parts)
      && BodiesAreHeadingFree(s, pos, parts)
  {
    var e := HeadingEnd(s, p);
    MatchEndAtHeading(s, p);
    HeadingStepPlaces(s, pos, p, e, rest);
    BodyStepPlaces(s, pos, p, e, rest);
  }

  /** The list `re.split` returns for the whole README text: the pieces
      join back to the text, each heading piece is exactly the match of the
      heading pattern at its offset, and no heading line starts inside a
      body piece. */
  function SplitHeadings(content: string): (parts: seq<string>)
    ensures SplitShape(parts)
    ensures Concat(parts) == content
    ensures HeadingsAreMatches(content, 0, parts)
    ensures BodiesAreHeadingFree(content, 0, parts)
  {
    SplitFromPlaces(content, 0);
    SplitFrom(content, 0)
  }

  /** Some line of `t` is a heading line. */
  ghost predicate HasHeadingLine(t: string) {
    exists q :: 0 <= q <= |t| && HeadingAt(t, q)
  }

  /** A run of exactly `n` '#' is what `HashRun` counts. */
  lemma HashRunIs(s: string, p: nat, n: nat)
    requires p + n < |s|
    requires forall i :: p <= i < p + n ==> s[i] == '#'
    requires s[p + n] != '#'
    ensures HashRun(s, p) == n
  {
  }

  /** A heading line found inside a piece `s[lo..hi]` that starts at the text's
      start or at a line feed is a heading line of the whole text. */
  lemma PieceHeadingIsHeading(s: string, lo: nat, hi: nat, q: nat)
    requires lo <= hi <= |s|
    requires lo == 0 || lo == |s| || s[lo] == '\n'
    requires q <= hi - lo && HeadingAt(s[lo..hi], q)
    ensures lo + q <= |s| && HeadingAt(s, lo + q)
  {
    var t := s[lo..hi];
    var n := HashRun(t, q);
    assert t[q] == '#';
    forall i | lo + q <= i < lo + q + n
      ensures s[i] == '#'
    {
      assert s[i] == t[i - lo];
    }
    assert s[lo + q + n] == t[q + n];
    HashRunIs(s, lo + q, n);
    if q > 0 {
      assert s[lo + q - 1] == t[q - 1];
    }
  }

  /** A piece of text with no heading line of the whole text starting in it
      has no heading line of its own. */
  lemma PieceWithoutHeading(s: string, lo: nat, hi: nat)
    requires lo <= hi <= |s|
    requires lo == 0 || lo == |s| || s[lo] == '\n'
    requires forall q :: lo <= q < hi ==> !HeadingAt(s, q)
    ensures !HasHeadingLine(s[lo..hi])
  {
    if HasHeadingLine(s[lo..hi]) {
      var q :| 0 <= q <= hi - lo && HeadingAt(s[lo..hi], q);
      PieceHeadingIsHeading(s, lo, hi, q);
    }
  }

  /** No piece at an even place, that is no piece of body text, contains a
      heading line. */
  ghost predicate BodiesHaveNoHeading(parts: seq<string>) {
    forall j :: 0 <= j < |parts| && j % 2 == 0 ==> !HasHeadingLine(parts[j])
  }

  lemma PairKeepsBodiesHeadingFree(a: string, b: string, rest: seq<string>)
    requires !HasHeadingLine(a) && BodiesHaveNoHeading(rest)
    ensures BodiesHaveNoHeading([a, b] + rest)
  {
    var parts := [a, b] + rest;
    forall j | 0 <= j < |parts| && j % 2 == 0
      ensures !HasHeadingLine(parts[j])
    {
      if j >= 2 {
        assert parts[j] == rest[j - 2];
      }
    }
  }

  /** No piece between headings holds a heading line. A heading line can
      still be swallowed by the heading before it, whose `\s+` may cross a
      line feed, but then it lies inside a heading piece. */
  lemma {:induction false} SplitMissesNoHeading(s: string, pos: nat)
    requires pos <= |s|
    requires pos == 0 || pos == |s| || s[pos] == '\n'
    ensures BodiesHaveNoHeading(SplitFrom(s, pos))
    decreases |s| - pos
  {
    match NextHeading(s, pos)
    case None =>
      PieceWithoutHeading(s, pos, |s|);
      assert s[pos..] == s[pos..|s|];
    case Some(p) =>
      var e := HeadingEnd(s, p);
      PieceWithoutHeading(s, pos, p);
      SplitMissesNoHeading(s, e);
      PairKeepsBodiesHeadingFree(s[pos..p], s[p..e], SplitFrom(s, e));
  }

  /** No body piece of the README's split contains a heading line. */
  lemma SplitHeadingsMissesNoHeading(content: string)
    ensures BodiesHaveNoHeading(SplitHeadings(content))
  {
    SplitMissesNoHeading(content, 0);
  }

  // ---------------------------------------------------------------------
  // The split is the only one that places headings and bodies correctly
  // ---------------------------------------------------------------------

  lemma OddPiecesShift(pos: nat, front: string, head: string, rest: seq<string>, end: nat -> int)
    requires OddPiecesEndAt(pos, [front, head] + rest, end)
    ensures OddPiecesEndAt(pos + |front| + |head|, rest, end)
  {
    forall k: nat | k < |rest| && k % 2 == 1
      ensures PieceEndsAt(pos + |front| + |head|, rest, end, k)
    {
      assert (k + 2) % 2 == 1;
      assert PieceEndsAt(pos, [front, head] + rest, end, k + 2);
      OddPieceShiftAt(pos, front, head, rest, end, k);
    }
  }

  lemma OddPieceShiftAt(pos: nat, front: string, head: string, rest: seq<string>, end: nat -> int, k: nat)
    requires k < |rest|
    requires PieceEndsAt(pos, [front, head] + rest, end, k + 2)
    ensures PieceEndsAt(pos + |front| + |head|, rest, end, k)
  {
    PieceAfterPair(front, head, rest, k + 2);
    assert pos + Offset([front, head] + rest, k + 2) == pos + |front| + |head| + Offset(rest, k);
  }

  lemma NextHeadingIs(s: string, pos: nat, p: nat)
    requires pos <= p <= |s| && HeadingAt(s, p)
    requires forall q :: pos <= q < p ==> !HeadingAt(s, q)
    ensures NextHeading(s, pos) == Some(p)
  {
    match NextHeading(s, pos)
    case None =>
    case Some(r) =>
      assert !(r < p) && !(p < r);
  }

  lemma NextHeadingNone(s: string, pos: nat)
    requires pos <= |s|
    requires forall q :: pos <= q <= |s| ==> !HeadingAt(s, q)
    ensures NextHeading(s, pos).None?
  {
  }

  lemma SplitFromUnfold(s: string, pos: nat)
    requires pos <= |s|
    ensures NextHeading(s, pos).None? ==> SplitFrom(s, pos) == [s[pos..]]
    ensures NextHeading(s, pos).Some? ==>
      var p := NextHeading(s, pos).value;
      SplitFrom(s, pos) == [s[pos..p], s[p..HeadingEnd(s, p)]] + SplitFrom(s, HeadingEnd(s, p))
  {
  }

  /** Three consecutive stretches of `s` from `pos` on. */
  lemma SliceThree(s: string, pos: nat, a: string, b: string, c: string)
    requires pos <= |s| && s[pos..] == a + (b + c)
    ensures pos + |a| + |b| <= |s|
    ensures a == s[pos..pos + |a|] && b == s[pos + |a|..pos + |a| + |b|] && c == s[pos + |a| + |b|..]
  {
    assert |s[pos..]| == |a| + |b| + |c|;
    assert forall i :: 0 <= i < |a| ==> a[i] == s[pos..][i];
    assert forall i :: 0 <= i < |b| ==> b[i] == s[pos..][|a| + i];
    assert forall i :: 0 <= i < |c| ==> c[i] == s[pos..][|a| + |b| + i];
  }

  /** Every position of `[lo, hi)` is one where `end` reports no match. */
  ghost predicate MissAll(lo: nat, hi: nat, end: nat -> int) {
    forall q :: lo <= q < hi ==> end(q) < 0
  }

  /** No match starts inside an even piece. */
  ghost predicate EvenPiecesMiss(pos: nat, parts: seq<string>, end: nat -> int) {
    forall j, q :: 0 <= j < |parts| && j % 2 == 0 && pos + Offset(parts, j) <= q < pos + Offset(parts, j) + |parts[j]| ==>
      end(q) < 0
  }

  /** The placement read from the front: a piece where nothing matches,
      then a piece that is exactly the match after it, and so on. */
  ghost predicate PlacedBy(pos: nat, parts: seq<string>, end: nat -> int)
    decreases |parts|
  {
    parts != [] ==>
      && MissAll(pos, pos + |parts[0]|, end)
      && (|parts| >= 2 ==>
            && pos + |parts[0]| + |parts[1]| == end(pos + |parts[0]|)
            && PlacedBy(pos + |parts[0]| + |parts[1]|, parts[2..], end))
  }

  /** Bodies without heading starts are pieces where no heading matches. */
  lemma BodiesMissMatches(s: string, pos: nat, parts: seq<string>)
    requires BodiesAreHeadingFree(s, pos, parts)
    ensures EvenPiecesMiss(pos, parts, MatchEnds(s))
  {
    forall j, q | 0 <= j < |parts| && j % 2 == 0 && pos + Offset(parts, j) <= q < pos + Offset(parts, j) + |parts[j]|
      ensures MatchEnds(s)(q) < 0
    {
      assert MatchEnd(s, q) < 0;
    }
  }

  lemma EvenPiecesShift(pos: nat, parts: seq<string>, end: nat -> int)
    requires |parts| >= 2 && EvenPiecesMiss(pos, parts, end)
    ensures EvenPiecesMiss(pos + |parts[0]| + |parts[1]|, parts[2..], end)
  {
    var front, head, rest := parts[0], parts[1], parts[2..];
    assert parts == [front, head] + rest;
    var e := pos + |front| + |head|;
    forall k, q | 0 <= k < |rest| && k % 2 == 0 && e + Offset(rest, k) <= q < e + Offset(rest, k) + |rest[k]|
      ensures end(q) < 0
    {
      PieceAfterPair(front, head, rest, k + 2);
      assert (k + 2) % 2 == 0;
    }
  }

  lemma FirstEvenMisses(pos: nat, parts: seq<string>, end: nat -> int)
    requires parts != [] && EvenPiecesMiss(pos, parts, end)
    ensures MissAll(pos, pos + |parts[0]|, end)
  {
    assert Offset(parts, 0) == 0;
    forall q | pos <= q < pos + |parts[0]|
      ensures end(q) < 0
    {
      assert pos + Offset(parts, 0) <= q < pos + Offset(parts, 0) + |parts[0]|;
    }
  }

  lemma FirstOddEnds(pos: nat, parts: seq<string>, end: nat -> int)
    requires |parts| >= 2 && OddPiecesEndAt(pos, parts, end)
    ensures pos + |parts[0]| + |parts[1]| == end(pos + |parts[0]|)
  {
    assert parts == [parts[0], parts[1]] + parts[2..];
    OffsetPair(parts[0], parts[1], parts[2..], 2);
    assert PieceEndsAt(pos, parts, end, 1);
  }

  lemma OddPiecesShiftOn(pos: nat, parts: seq<string>, end: nat -> int)
    requires |parts| >= 2 && OddPiecesEndAt(pos, parts, end)
    ensures OddPiecesEndAt(pos + |parts[0]| + |parts[1]|, parts[2..], end)
  {
    assert parts == [parts[0], parts[1]] + parts[2..];
    OddPiecesShift(pos, parts[0], parts[1], parts[2..], end);
  }

  /** The placement by offsets, read from the front. */
  lemma {:induction false} OffsetsArePlacedBy(pos: nat, parts: seq<string>, end: nat -> int)
    requires OddPiecesEndAt(pos, parts, end) && EvenPiecesMiss(pos, parts, end)
    ensures PlacedBy(pos, parts, end)
    decreases |parts|
  {
    if parts != [] {
      FirstEvenMisses(pos, parts, end);
      if |parts| >= 2 {
        FirstOddEnds(pos, parts, end);
        OddPiecesShiftOn(pos, parts, end);
        EvenPiecesShift(pos, parts, end);
        OffsetsArePlacedBy(pos + |parts[0]| + |parts[1]|, parts[2..], end);
      }
    }
  }

  lemma PlacedTail(pos: nat, parts: seq<string>, end: nat -> int)
    requires |parts| >= 2 && PlacedBy(pos, parts, end)
    ensures pos + |parts[0]| + |parts[1]| == end(pos + |parts[0]|)
    ensures PlacedBy(pos + |parts[0]| + |parts[1]|, parts[2..], end)
  {
  }

  /** Positions where `MatchEnd` reports no match hold no heading start. */
  lemma MissesAreNoHeadings(s: string, lo: nat, hi: nat)
    requires MissAll(lo, hi, MatchEnds(s))
    ensures forall q :: lo <= q < hi && q <= |s| ==> !HeadingAt(s, q)
  {
    forall q | lo <= q < hi && q <= |s|
      ensures !HeadingAt(s, q)
    {
      assert MatchEnds(s)(q) < 0;
    }
  }

  /** A correctly placed single piece is the split of a text without
      headings. */
  lemma UniqueLastPiece(s: string, pos: nat, parts: seq<string>)
    requires pos <= |s| && |parts| == 1 && parts[0] == s[pos..]
    requires PlacedBy(pos, parts, MatchEnds(s))
    ensures parts == SplitFrom(s, pos)
  {
    assert !HeadingAt(s, |s|);
    MissesAreNoHeadings(s, pos, |s|);
    NextHeadingNone(s, pos);
    SplitFromUnfold(s, pos);
  }

  /** The text up to the next heading and that heading's match, followed
      by the split of the rest, are the split. */
  lemma UniqueFirstPair(s: string, pos: nat, parts: seq<string>)
    requires |parts| >= 2 && pos + |parts[0]| + |parts[1]| <= |s|
    requires parts[0] == s[pos..pos + |parts[0]|]
    requires parts[1] == s[pos + |parts[0]|..pos + |parts[0]| + |parts[1]|]
    requires NextHeading(s, pos) == Some(pos + |parts[0]|)
    requires pos + |parts[0]| + |parts[1]| == MatchEnd(s, pos + |parts[0]|)
    requires parts[2..] == SplitFrom(s, pos + |parts[0]| + |parts[1]|)
    ensures parts == SplitFrom(s, pos)
  {
    UniqueFirstPairAt(s, pos, pos + |parts[0]|, pos + |parts[0]| + |parts[1]|, parts);
  }

  lemma UniqueFirstPairAt(s: string, pos: nat, p: nat, e: nat, parts: seq<string>)
    requires pos <= p <= |s| && |parts| >= 2
    requires NextHeading(s, pos) == Some(p) && e == MatchEnd(s, p)
    requires parts[0] == s[pos..p] && parts[1] == s[p..e]
    requires parts[2..] == SplitFrom(s, e)
    ensures parts == SplitFrom(s, pos)
  {
    MatchEndAtHeading(s, p);
    SplitFromUnfold(s, pos);
    assert parts == [parts[0], parts[1]] + parts[2..];
  }

  /** The first heading of a correctly placed list of pieces is the next
      heading. */
  lemma PlacedFirstHeading(s: string, pos: nat, parts: seq<string>)
    requires |parts| >= 2 && pos + |parts[0]| <= |s|
    requires PlacedBy(pos, parts, MatchEnds(s))
    ensures NextHeading(s, pos) == Some(pos + |parts[0]|)
  {
    var p := pos + |parts[0]|;
    assert MatchEnds(s)(p) >= 0;
    MissesAreNoHeadings(s, pos, p);
    NextHeadingIs(s, pos, p);
  }

  /** The first two pieces of a list that joins to `s[pos..]` are the
      stretches of `s` right after `pos`, and the rest joins to what is left. */
  lemma FrontSlices(s: string, pos: nat, parts: seq<string>)
    requires pos <= |s| && |parts| >= 2
    requires Concat(parts) == s[pos..]
    ensures pos + |parts[0]| + |parts[1]| <= |s|
    ensures parts[0] == s[pos..pos + |parts[0]|]
    ensures parts[1] == s[pos + |parts[0]|..pos + |parts[0]| + |parts[1]|]
    ensures Concat(parts[2..]) == s[pos + |parts[0]| + |parts[1]|..]
  {
    assert parts == [parts[0], parts[1]] + parts[2..];
    ConcatOfPair(parts[0], parts[1], parts[2..]);
    SliceThree(s, pos, parts[0], parts[1], Concat(parts[2..]));
  }

  /** The pieces of `s` from `pos` on: an odd number of them, joining back
      to `s[pos..]`, placed by the matches that `end` reports. */
  ghost predicate PlacedSplit(s: string, pos: nat, parts: seq<string>, end: nat -> int)
    requires pos <= |s|
  {
    |parts| % 2 == 1 && Concat(parts) == s[pos..] && PlacedBy(pos, parts, end)
  }

  lemma UniqueSingle(s: string, pos: nat, parts: seq<string>)
    requires pos <= |s| && |parts| < 2
    ensures PlacedSplit(s, pos, parts, MatchEnds(s)) ==> parts == SplitFrom(s, pos)
  {
    if PlacedSplit(s, pos, parts, MatchEnds(s)) {
      assert Concat(parts) == parts[0] + Concat(parts[1..]);
      assert Concat(parts[1..]) == "";
      UniqueLastPiece(s, pos, parts);
    }
  }

  /** A correctly placed list of two or more pieces has a correctly placed
      tail. */
  lemma PlacedSplitTail(s: string, pos: nat, parts: seq<string>, end: nat -> int)
    requires pos <= |s| && |parts| >= 2 && PlacedSplit(s, pos, parts, end)
    ensures pos + |parts[0]| + |parts[1]| <= |s|
    ensures PlacedSplit(s, pos + |parts[0]| + |parts[1]|, parts[2..], end)
  {
    FrontSlices(s, pos, parts);
    PlacedTail(pos, parts, end);
  }

  /** A correctly placed list whose tail is the split of the rest is the
      split. */
  lemma PlacedPairIsSplit(s: string, pos: nat, parts: seq<string>)
    requires pos <= |s| && |parts| >= 2 && PlacedSplit(s, pos, parts, MatchEnds(s))
    requires pos + |parts[0]| + |parts[1]| <= |s|
    requires parts[2..] == SplitFrom(s, pos + |parts[0]| + |parts[1]|)
    ensures parts == SplitFrom(s, pos)
  {
    FrontSlices(s, pos, parts);
    PlacedFirstPair(s, pos, parts);
    UniqueFirstPair(s, pos, parts);
  }

  /** The first heading of a correctly placed list is the next heading, and
      the second piece ends where its match ends. */
  lemma PlacedFirstPair(s: string, pos: nat, parts: seq<string>)
    requires |parts| >= 2 && pos + |parts[0]| <= |s|
    requires PlacedBy(pos, parts, MatchEnds(s))
    ensures NextHeading(s, pos) == Some(pos + |parts[0]|)
    ensures pos + |parts[0]| + |parts[1]| == MatchEnd(s, pos + |parts[0]|)
  {
    PlacedTail(pos, parts, MatchEnds(s));
    PlacedFirstHeading(s, pos, parts);
  }

  /** `parts` is a placed split of `s` from `p`. */
  ghost predicate PlacedAt(s: string, p: nat, parts: seq<string>) {
    p <= |s| && PlacedSplit(s, p, parts, MatchEnds(s))
  }

  /** The split of `s` from `p`, or nothing past the end. */
  function SplitOrNone(s: string, p: nat): seq<string> {
    if p <= |s| then SplitFrom(s, p) else []
  }

  /** The three steps of the uniqueness induction at one offset. */
  lemma ShortPlacedAt(s: string, p: nat, ps: seq<string>)
    requires PlacedAt(s, p, ps) && |ps| < 2
    ensures ps == SplitOrNone(s, p)
  {
    UniqueSingle(s, p, ps);
  }

  lemma PlacedAtTail(s: string, p: nat, ps: seq<string>)
    requires PlacedAt(s, p, ps) && |ps| >= 2
    ensures PlacedAt(s, p + |ps[0]| + |ps[1]|, ps[2..])
  {
    PlacedSplitTail(s, p, ps, MatchEnds(s));
  }

  lemma LongPlacedAt(s: string, p: nat, ps: seq<string>)
    requires PlacedAt(s, p, ps) && |ps| >= 2 && ps[2..] == SplitOrNone(s, p + |ps[0]| + |ps[1]|)
    ensures ps == SplitOrNone(s, p)
  {
    PlacedSplitTail(s, p, ps, MatchEnds(s));
    PlacedPairIsSplit(s, p, ps);
  }

  /** Uniqueness by induction on the pieces: when every placed list of
      fewer than two pieces is the split, a placed list stays placed after
      its first two pieces, and a placed list whose tail is the split is the
      split, then every placed list is the split. */
  lemma {:induction false} UniqueByFront(placed: (string, nat, seq<string>) -> bool, split: (string, nat) -> seq<string>,
                                         s: string, pos: nat, parts: seq<string>)
    requires forall p: nat, ps: seq<string> :: placed(s, p, ps) && |ps| < 2 ==> ps == split(s, p)
    requires forall p: nat, ps: seq<string> :: placed(s, p, ps) && |ps| >= 2 ==> placed(s, p + |ps[0]| + |ps[1]|, ps[2..])
    requires forall p: nat, ps: seq<string> ::
      placed(s, p, ps) && |ps| >= 2 && ps[2..] == split(s, p + |ps[0]| + |ps[1]|) ==> ps == split(s, p)
    ensures placed(s, pos, parts) ==> parts == split(s, pos)
    decreases |parts|
  {
    if placed(s, pos, parts) && |parts| >= 2 {
      UniqueByFront(placed, split, s, pos + |parts[0]| + |parts[1]|, parts[2..]);
    }
  }

  /** The premises of `UniqueByFront` for the README's placed lists. */
  lemma ShortPlacedIsSplit(s: string)
    ensures forall p: nat, ps: seq<string> :: PlacedAt(s, p, ps) && |ps| < 2 ==> ps == SplitOrNone(s, p)
  {
    forall p: nat, ps: seq<string> | PlacedAt(s, p, ps) && |ps| < 2
      ensures ps == SplitOrNone(s, p)
    {
      ShortPlacedAt(s, p, ps);
    }
  }

  lemma PlacedStaysPlaced(s: string)
    ensures forall p: nat, ps: seq<string> ::
      PlacedAt(s, p, ps) && |ps| >= 2 ==> PlacedAt(s, p + |ps[0]| + |ps[1]|, ps[2..])
  {
    forall p: nat, ps: seq<string> | PlacedAt(s, p, ps) && |ps| >= 2
      ensures PlacedAt(s, p + |ps[0]| + |ps[1]|, ps[2..])
    {
      PlacedAtTail(s, p, ps);
    }
  }

  lemma LongPlacedIsSplit(s: string)
    ensures forall p: nat, ps: seq<string> ::
      PlacedAt(s, p, ps) && |ps| >= 2 && ps[2..] == SplitOrNone(s, p + |ps[0]| + |ps[1]|) ==> ps == SplitOrNone(s, p)
  {
    forall p: nat, ps: seq<string> | PlacedAt(s, p, ps) && |ps| >= 2 && ps[2..] == SplitOrNone(s, p + |ps[0]| + |ps[1]|)
      ensures ps == SplitOrNone(s, p)
    {
      LongPlacedAt(s, p, ps);
    }
  }

  /** A placed list of pieces of `s` from `pos` is the split from `pos`. */
  lemma PlacedUnique(s: string, pos: nat, parts: seq<string>)
    requires pos <= |s|
    ensures PlacedSplit(s, pos, parts, MatchEnds(s)) ==> parts == SplitFrom(s, pos)
  {
    ShortPlacedIsSplit(s);
    PlacedStaysPlaced(s);
    LongPlacedIsSplit(s);
    UniqueByFront(PlacedAt, SplitOrNone, s, pos, parts);
  }

  /** `re.split` on heading lines is pinned down by where the headings are:
      the split is the only odd-length list of pieces that joins back to
      the README, whose odd pieces are exactly the heading matches at their
      offsets and whose even pieces hold no heading start. */
  lemma SplitHeadingsUnique(content: string, parts: seq<string>)
    requires |parts| % 2 == 1 && Concat(parts) == content
    requires HeadingsAreMatches(content, 0, parts) && BodiesAreHeadingFree(content, 0, parts)
    ensures parts == SplitHeadings(content)
  {
    assert content[0..] == content;
    BodiesMissMatches(content, 0, parts);
    OffsetsArePlacedBy(0, parts, MatchEnds(content));
    PlacedUnique(content, 0, parts);
  }

  lemma HeadingLineExamples()
    ensures HeadingAt("# x", 0)
    ensures HeadingAt("###### x", 0)
  {
    HashRunIs("# x", 0, 1);
    HashRunIs("###### x", 0, 6);
  }

  /** Seven '#' are too many and a '#' glued to its text is no heading:
      both lines stay body text. */
  lemma NonHeadingLineExamples()
    ensures !HeadingAt("####### x", 0)
    ensures !HeadingAt("#x", 0)
  {
    HashRunIs("####### x", 0, 7);
    HashRunIs("#x", 0, 1);
  }

  /** `\s+` may cross a line feed: a lone `#` followed by a line break
      swallows the next line into the heading match. */
  lemma BareHashTakesNextLine()
    ensures HeadingAt("#\nfoo", 0)
    ensures HeadingEnd("#\nfoo", 0) == 5
  {
    HashRunIs("#\nfoo", 0, 1);
  }

  // ---------------------------------------------------------------------
  // Building the sections dictionary
  // ---------------------------------------------------------------------

  /** One assignment `sections[key] = body`. */
  datatype Entry = Entry(key: string, body: string)

  /** A Python dict from keys to texts: `keys` is its iteration order, which
      is the order in which keys were first inserted. */
  datatype SectionMap = SectionMap(keys: seq<string>, text: map<string, string>) {

    predicate Valid() {
      && (forall i, j :: 0 <= i < j < |keys| ==> keys[i] != keys[j])
      && (forall k :: k in text ==> k in keys)
      && (forall k :: k in keys ==> k in text)
    }
  }

  /** `m[k] = v`: a key already present keeps its place in the order. */
  function Put(m: SectionMap, k: string, v: string): (r: SectionMap)
    requires m.Valid()
    ensures r.Valid()
    ensures r.text == m.text[k := v]
    ensures |m.keys| <= |r.keys|
    ensures forall i :: 0 <= i < |m.keys| ==> r.keys[i] == m.keys[i]
  {
    if k in m.text then SectionMap(m.keys, m.text[k := v])
    else SectionMap(m.keys + [k], m.text[k := v])
  }

  /** The dictionary after performing the assignments `es` in order on an
      empty one. */
  function Assemble(es: seq<Entry>): (m: SectionMap)
    ensures m.Valid()
    ensures es != [] ==> m.keys != [] && m.keys[0] == es[0].key
    decreases |es|
  {
    if es == [] then SectionMap([], map[])
    else Put(Assemble(es[..|es| - 1]), es[|es| - 1].key, es[|es| - 1].body)
  }

  /** The keys `es` assigns. */
  ghost predicate Assigns(es: seq<Entry>, k: string) {
    exists i :: 0 <= i < |es| && es[i].key == k
  }

  /** Exactly the assigned keys are present. */
  lemma {:induction false} AssembleKeys(es: seq<Entry>, k: string)
    ensures k in Assemble(es).text <==> Assigns(es, k)
    decreases |es|
  {
    if es != [] {
      var init := es[..|es| - 1];
      AssembleKeys(init, k);
      AssembleLast(es);
      AssignsLast(es, k);
    }
  }

  /** A key is assigned by a run exactly when the run without its last
      entry assigns it or the last entry does. */
  lemma AssignsLast(es: seq<Entry>, k: string)
    requires es != []
    ensures Assigns(es, k) <==> Assigns(es[..|es| - 1], k) || es[|es| - 1].key == k
  {
    var init := es[..|es| - 1];
    if Assigns(init, k) {
      var i :| 0 <= i < |init| && init[i].key == k;
      assert es[i].key == k;
    }
    if Assigns(es, k) && es[|es| - 1].key != k {
      var i :| 0 <= i < |es| && es[i].key == k;
      assert init[i].key == k;
    }
  }

  /** Every stored pair was assigned by some entry. */
  lemma {:induction false} AssembleValueFrom(es: seq<Entry>, k: string)
    requires k in Assemble(es).text
    ensures exists i :: 0 <= i < |es| && es[i] == Entry(k, Assemble(es).text[k])
    decreases |es|
  {
    var last := es[|es| - 1];
    if last.key != k {
      var init := es[..|es| - 1];
      AssembleValueFrom(init, k);
      var i :| 0 <= i < |init| && init[i] == Entry(k, Assemble(init).text[k]);
      assert es[i] == init[i];
    } else {
      assert es[|es| - 1] == Entry(k, Assemble(es).text[k]);
    }
  }

  lemma AssembleLast(es: seq<Entry>)
    requires es != []
    ensures Assemble(es).text == Assemble(es[..|es| - 1]).text[es[|es| - 1].key := es[|es| - 1].body]
  {
  }

  lemma MapUnionUpdate(left: map<string, string>, right: map<string, string>, k: string, v: string)
    ensures (left + right)[k := v] == left + right[k := v]
  {
  }

  /** A stored pair of two runs of assignments comes from one of them. */
  lemma AssembleValueSplit(a: seq<Entry>, b: seq<Entry>, k: string)
    requires k in Assemble(a + b).text
    ensures Entry(k, Assemble(a + b).text[k]) in a || Entry(k, Assemble(a + b).text[k]) in b
  {
    AssembleValueFrom(a + b, k);
    var i :| 0 <= i < |a + b| && (a + b)[i] == Entry(k, Assemble(a + b).text[k]);
    if i < |a| {
      assert (a + b)[i] == a[i];
    } else {
      assert (a + b)[i] == b[i - |a|];
    }
  }

  /** Performing two runs of assignments is the first dictionary updated by
      the second: on a shared key, the later run wins. */
  lemma {:induction false} AssembleAppend(a: seq<Entry>, b: seq<Entry>)
    ensures Assemble(a + b).text == Assemble(a).text + Assemble(b).text
    decreases |b|
  {
    if b == [] {
      assert a + b == a;
    } else {
      var init := b[..|b| - 1];
      var last := b[|b| - 1];
      assert (a + b)[..|a + b| - 1] == a + init;
      assert (a + b)[|a + b| - 1] == last;
      AssembleAppend(a, init);
      AssembleLast(a + b);
      AssembleLast(b);
      MapUnionUpdate(Assemble(a).text, Assemble(init).text, last.key, last.body);
    }
  }

  /** The value stored under a key is the body of the last assignment to it. */
  lemma {:induction false} LastEntryWins(es: seq<Entry>, i: nat)
    requires i < |es|
    requires forall j :: i < j < |es| ==> es[j].key != es[i].key
    ensures es[i].key in Assemble(es).text
    ensures Assemble(es).text[es[i].key] == es[i].body
    decreases |es|
  {
    if i < |es| - 1 {
      var init := es[..|es| - 1];
      assert init[i] == es[i];
      LastEntryWins(init, i);
    }
  }

  /** A key that survives normalization: non-empty and clean. */
  predicate IsCleanKey(k: string) {
    && k != []
    && k[0] != '_' && k[|k| - 1] != '_'
    && NoDoubleUnderscore(k)
    && AllKeyChars(k)
  }

  lemma IntroductionIsClean()
    ensures IsCleanKey(Introduction)
  {
    assert forall i :: 0 <= i < |Introduction| ==> 'a' <= Introduction[i] <= 'z';
  }

  /** The introduction entry: the trimmed text before the first heading,
      when it is not empty. */
  function IntroEntries(parts: seq<string>): (es: seq<Entry>)
    ensures forall e :: e in es ==> IsCleanKey(e.key) && IsStripped(e.body)
  {
    if |parts| > 0 && Strip(parts[0]) != [] then
      IntroductionIsClean();
      [Entry(Introduction, Strip(parts[0]))]
    else []
  }

  /** The body that follows the heading at place `i`, passed through
      `bodyOf`; the README segmenter trims it with `Strip`. */
  function HeaderBody(parts: seq<string>, i: nat, bodyOf: string -> string): string
    requires i < |parts|
  {
    if i + 1 < |parts| then bodyOf(parts[i + 1]) else ""
  }

  /** `j` is one of the places `i, i + 2, i + 4, ...` of `parts`. */
  predicate HeadingPlace(parts: seq<string>, i: nat, j: int) {
    i <= j < |parts| && (j - i) % 2 == 0
  }

  /** `key = keyOf(header); if key: sections[key] = body` for the heading at
      place `i`. The loop body is stated for any key function `keyOf` and
      body function `bodyOf`; the README segmenter uses `NormalizeKey` and
      `Strip`. */
  function HeadingEntry(parts: seq<string>, i: nat, keyOf: string -> string, bodyOf: string -> string): (es: seq<Entry>)
    requires i < |parts|
    ensures forall e :: e in es ==> e.key != []
  {
    var key := keyOf(parts[i]);
    if key != [] then [Entry(key, HeaderBody(parts, i, bodyOf))] else []
  }

  /** The entries the loop over the headings at places `i, i + 2, ...`
      produces: one per heading whose key is not empty. */
  function HeaderEntries(parts: seq<string>, i: nat, keyOf: string -> string, bodyOf: string -> string): (es: seq<Entry>)
    ensures forall e :: e in es ==> e.key != []
    decreases |parts| - i
  {
    if i >= |parts| then [] else HeadingEntry(parts, i, keyOf, bodyOf) + HeaderEntries(parts, i + 2, keyOf, bodyOf)
  }

  /** The sections dictionary built from a `re.split` result. */
  function SectionsOf(parts: seq<string>): (m: SectionMap)
    ensures m.Valid()
    ensures forall k :: k in m.text ==> IsCleanKey(k) && IsStripped(m.text[k])
  {
    var es := IntroEntries(parts) + HeaderEntries(parts, 1, NormalizeKey, Strip);
    var m := Assemble(es);
    forall k | k in m.text
      ensures IsCleanKey(k) && IsStripped(m.text[k])
    {
      AssembleValueFrom(es, k);
      var i :| 0 <= i < |es| && es[i] == Entry(k, m.text[k]);
      if i < |IntroEntries(parts)| {
        assert es[i] in IntroEntries(parts);
      } else {
        assert es[i] in HeaderEntries(parts, 1, NormalizeKey, Strip);
        SegmenterEntry(parts, es[i]);
      }
    }
    m
  }

  /** The `sections` dictionary `fetch_readme` returns for decoded README
      text. */
  function Segment(content: string): (m: SectionMap)
    ensures m.Valid()
    ensures forall k :: k in m.text ==> IsCleanKey(k) && IsStripped(m.text[k])
  {
    SectionsOf(SplitHeadings(content))
  }

  // ---------------------------------------------------------------------
  // What the heading loop stores
  // ---------------------------------------------------------------------

  lemma NextHeadingPlace(parts: seq<string>, i: nat, j: int)
    ensures HeadingPlace(parts, i, j) <==> (j == i && i < |parts|) || HeadingPlace(parts, i + 2, j)
  {
  }

  /** Some heading at the places `i, i + 2, ...` has key `k`. */
  ghost predicate HeadingWithKey(parts: seq<string>, i: nat, keyOf: string -> string, k: string) {
    exists j :: HeadingPlace(parts, i, j) && keyOf(parts[j]) == k
  }

  lemma HeaderEntriesUnfold(parts: seq<string>, i: nat, keyOf: string -> string, bodyOf: string -> string)
    requires i < |parts|
    ensures HeaderEntries(parts, i, keyOf, bodyOf) == HeadingEntry(parts, i, keyOf, bodyOf) + HeaderEntries(parts, i + 2, keyOf, bodyOf)
  {
  }

  lemma HeadingEntryKeys(parts: seq<string>, i: nat, keyOf: string -> string, bodyOf: string -> string, k: string)
    requires i < |parts|
    ensures k in Assemble(HeadingEntry(parts, i, keyOf, bodyOf)).text <==> k != [] && k == keyOf(parts[i])
  {
    AssembleKeys(HeadingEntry(parts, i, keyOf, bodyOf), k);
  }

  lemma HeadingEntryValue(parts: seq<string>, i: nat, keyOf: string -> string, bodyOf: string -> string)
    requires i < |parts| && keyOf(parts[i]) != []
    ensures Assemble(HeadingEntry(parts, i, keyOf, bodyOf)).text[keyOf(parts[i])] == HeaderBody(parts, i, bodyOf)
  {
    LastEntryWins(HeadingEntry(parts, i, keyOf, bodyOf), 0);
  }

  lemma HeadingWithKeyStep(parts: seq<string>, i: nat, keyOf: string -> string, k: string)
    ensures HeadingWithKey(parts, i, keyOf, k) <==>
      (i < |parts| && keyOf(parts[i]) == k) || HeadingWithKey(parts, i + 2, keyOf, k)
  {
    if HeadingWithKey(parts, i, keyOf, k) {
      var j :| HeadingPlace(parts, i, j) && keyOf(parts[j]) == k;
      NextHeadingPlace(parts, i, j);
    }
    if HeadingWithKey(parts, i + 2, keyOf, k) {
      var j :| HeadingPlace(parts, i + 2, j) && keyOf(parts[j]) == k;
      NextHeadingPlace(parts, i, j);
    }
    if i < |parts| && keyOf(parts[i]) == k {
      NextHeadingPlace(parts, i, i);
    }
  }

  lemma NoHeadingBeyondEnd(parts: seq<string>, i: nat, keyOf: string -> string, k: string)
    requires i >= |parts|
    ensures !HeadingWithKey(parts, i, keyOf, k)
  {
  }

  /** The loop from place `i` on stores exactly the non-empty keys of its
      headings. */
  lemma {:induction false} HeaderKeys(parts: seq<string>, i: nat, keyOf: string -> string, bodyOf: string -> string, k: string)
    ensures k in Assemble(HeaderEntries(parts, i, keyOf, bodyOf)).text <==> k != [] && HeadingWithKey(parts, i, keyOf, k)
    decreases |parts| - i
  {
    HeadingWithKeyStep(parts, i, keyOf, k);
    if i < |parts| {
      HeaderEntriesUnfold(parts, i, keyOf, bodyOf);
      AssembleAppend(HeadingEntry(parts, i, keyOf, bodyOf), HeaderEntries(parts, i + 2, keyOf, bodyOf));
      HeadingEntryKeys(parts, i, keyOf, bodyOf, k);
      HeaderKeys(parts, i + 2, keyOf, bodyOf, k);
    } else {
      NoHeadingBeyondEnd(parts, i, keyOf, k);
    }
  }

  /** The heading at place `i` decides its key when no later heading has it. */
  lemma LastHeadingHere(parts: seq<string>, i: nat, keyOf: string -> string, bodyOf: string -> string)
    requires i < |parts| && keyOf(parts[i]) != []
    requires forall q :: i < q && HeadingPlace(parts, i, q) ==> keyOf(parts[q]) != keyOf(parts[i])
    ensures keyOf(parts[i]) in Assemble(HeaderEntries(parts, i, keyOf, bodyOf)).text
    ensures Assemble(HeaderEntries(parts, i, keyOf, bodyOf)).text[keyOf(parts[i])] == HeaderBody(parts, i, bodyOf)
  {
    var k := keyOf(parts[i]);
    HeaderEntriesUnfold(parts, i, keyOf, bodyOf);
    AssembleAppend(HeadingEntry(parts, i, keyOf, bodyOf), HeaderEntries(parts, i + 2, keyOf, bodyOf));
    HeadingEntryKeys(parts, i, keyOf, bodyOf, k);
    HeadingEntryValue(parts, i, keyOf, bodyOf);
    HeaderKeys(parts, i + 2, keyOf, bodyOf, k);
    forall q | HeadingPlace(parts, i + 2, q)
      ensures keyOf(parts[q]) != k
    {
      NextHeadingPlace(parts, i, q);
    }
  }

  /** Places further along the same stride are places of the earlier
      start too. */
  lemma PlaceTransitive(parts: seq<string>, i: nat, j: nat, q: int)
    requires HeadingPlace(parts, i, j) && HeadingPlace(parts, j, q)
    ensures HeadingPlace(parts, i, q)
  {
    assert q - i == (q - j) + (j - i);
  }

  /** A place other than the start is a place of the next start. */
  lemma LaterPlace(parts: seq<string>, i: nat, j: nat)
    requires HeadingPlace(parts, i, j) && i != j
    ensures i < j < |parts| && HeadingPlace(parts, i + 2, j)
  {
    NextHeadingPlace(parts, i, j);
  }

  lemma PlaceFromNext(parts: seq<string>, i: nat, j: int)
    requires HeadingPlace(parts, i + 2, j)
    ensures HeadingPlace(parts, i, j)
  {
    NextHeadingPlace(parts, i, j);
  }

  /** The entries of the headings at places `i, i + 2, ...` before `j`. */
  function HeaderEntriesBefore(parts: seq<string>, i: nat, keyOf: string -> string, bodyOf: string -> string, j: nat): seq<Entry>
    decreases j - i
  {
    if i >= j || i >= |parts| then [] else HeadingEntry(parts, i, keyOf, bodyOf) + HeaderEntriesBefore(parts, i + 2, keyOf, bodyOf, j)
  }

  lemma BeforeUnfold(parts: seq<string>, i: nat, keyOf: string -> string, bodyOf: string -> string, j: nat)
    requires i < j && i < |parts|
    ensures HeaderEntriesBefore(parts, i, keyOf, bodyOf, j) == HeadingEntry(parts, i, keyOf, bodyOf) + HeaderEntriesBefore(parts, i + 2, keyOf, bodyOf, j)
  {
  }

  lemma SuffixBase(parts: seq<string>, i: nat, keyOf: string -> string, bodyOf: string -> string)
    ensures HeaderEntries(parts, i, keyOf, bodyOf) == HeaderEntriesBefore(parts, i, keyOf, bodyOf, i) + HeaderEntries(parts, i, keyOf, bodyOf)
  {
    assert HeaderEntriesBefore(parts, i, keyOf, bodyOf, i) == [];
  }

  /** The loop from place `i` is the loop's entries before `j` followed by
      the loop from `j`. */
  ghost predicate SuffixSplits(parts: seq<string>, i: nat, keyOf: string -> string, bodyOf: string -> string, j: nat) {
    HeaderEntries(parts, i, keyOf, bodyOf) == HeaderEntriesBefore(parts, i, keyOf, bodyOf, j) + HeaderEntries(parts, j, keyOf, bodyOf)
  }

  lemma SuffixStep(parts: seq<string>, i: nat, keyOf: string -> string, bodyOf: string -> string, j: nat)
    requires i < j < |parts| && SuffixSplits(parts, i + 2, keyOf, bodyOf, j)
    ensures SuffixSplits(parts, i, keyOf, bodyOf, j)
  {
    HeaderEntriesUnfold(parts, i, keyOf, bodyOf);
    BeforeUnfold(parts, i, keyOf, bodyOf, j);
    Regroup(HeadingEntry(parts, i, keyOf, bodyOf), HeaderEntriesBefore(parts, i + 2, keyOf, bodyOf, j), HeaderEntries(parts, j, keyOf, bodyOf));
  }

  /** The loop from place `i` first visits the places before `j` and then
      runs exactly as the loop from `j`. */
  lemma {:induction false} HeaderEntriesSuffix(parts: seq<string>, i: nat, keyOf: string -> string, bodyOf: string -> string, j: nat)
    requires HeadingPlace(parts, i, j)
    ensures HeaderEntries(parts, i, keyOf, bodyOf) == HeaderEntriesBefore(parts, i, keyOf, bodyOf, j) + HeaderEntries(parts, j, keyOf, bodyOf)
    decreases j - i
  {
    if i == j {
      SuffixBase(parts, i, keyOf, bodyOf);
    } else {
      LaterPlace(parts, i, j);
      HeaderEntriesSuffix(parts, i + 2, keyOf, bodyOf, j);
      SuffixStep(parts, i, keyOf, bodyOf, j);
    }
  }

  /** Among the headings at places `i, i + 2, ...`, the last one with a given
      key decides its text. */
  lemma LaterHeadingWinsFrom(parts: seq<string>, i: nat, keyOf: string -> string, bodyOf: string -> string, j: nat)
    requires HeadingPlace(parts, i, j) && keyOf(parts[j]) != []
    requires forall q :: j < q && HeadingPlace(parts, i, q) ==> keyOf(parts[q]) != keyOf(parts[j])
    ensures keyOf(parts[j]) in Assemble(HeaderEntries(parts, i, keyOf, bodyOf)).text
    ensures Assemble(HeaderEntries(parts, i, keyOf, bodyOf)).text[keyOf(parts[j])] == HeaderBody(parts, j, bodyOf)
  {
    var k := keyOf(parts[j]);
    forall q | j < q && HeadingPlace(parts, j, q)
      ensures keyOf(parts[q]) != k
    {
      PlaceTransitive(parts, i, j, q);
    }
    LastHeadingHere(parts, j, keyOf, bodyOf);
    HeaderEntriesSuffix(parts, i, keyOf, bodyOf, j);
    AssembleAppend(HeaderEntriesBefore(parts, i, keyOf, bodyOf, j), HeaderEntries(parts, j, keyOf, bodyOf));
  }

  lemma HeadingEntryMember(parts: seq<string>, i: nat, keyOf: string -> string, bodyOf: string -> string, e: Entry)
    requires i < |parts| && e in HeadingEntry(parts, i, keyOf, bodyOf)
    ensures e.key == keyOf(parts[i]) && e.body == HeaderBody(parts, i, bodyOf)
  {
  }

  /** Every entry of the heading loop comes from a heading with a non-empty
      key and carries that heading's trimmed body. */
  lemma {:induction false} HeaderEntryOrigin(parts: seq<string>, i: nat, keyOf: string -> string, bodyOf: string -> string, e: Entry)
    requires e in HeaderEntries(parts, i, keyOf, bodyOf)
    ensures exists j :: HeadingPlace(parts, i, j) && e.key == keyOf(parts[j]) && e.body == HeaderBody(parts, j, bodyOf)
    decreases |parts| - i
  {
    HeaderEntriesUnfold(parts, i, keyOf, bodyOf);
    if e in HeadingEntry(parts, i, keyOf, bodyOf) {
      HeadingEntryMember(parts, i, keyOf, bodyOf, e);
      assert HeadingPlace(parts, i, i);
    } else {
      assert e in HeaderEntries(parts, i + 2, keyOf, bodyOf);
      HeaderEntryOrigin(parts, i + 2, keyOf, bodyOf, e);
      var j :| HeadingPlace(parts, i + 2, j) && e.key == keyOf(parts[j]) && e.body == HeaderBody(parts, j, bodyOf);
      PlaceFromNext(parts, i, j);
    }
  }

  /** An entry of the README segmenter's heading loop has a clean key and a
      trimmed body. */
  lemma SegmenterEntry(parts: seq<string>, e: Entry)
    requires e in HeaderEntries(parts, 1, NormalizeKey, Strip)
    ensures IsCleanKey(e.key) && IsStripped(e.body)
  {
    HeaderEntryOrigin(parts, 1, NormalizeKey, Strip, e);
    var j :| HeadingPlace(parts, 1, j) && e.key == NormalizeKey(parts[j]) && e.body == HeaderBody(parts, j, Strip);
    StrippedBody(parts, j);
  }

  lemma StrippedBody(parts: seq<string>, j: nat)
    requires j < |parts|
    ensures IsStripped(HeaderBody(parts, j, Strip))
  {
  }

  // ---------------------------------------------------------------------
  // What the sections dictionary holds
  // ---------------------------------------------------------------------

  /** The dictionary is the introduction updated by the heading loop. */
  lemma SectionsOfSplit(parts: seq<string>)
    ensures SectionsOf(parts).text ==
      Assemble(IntroEntries(parts)).text + Assemble(HeaderEntries(parts, 1, NormalizeKey, Strip)).text
  {
    AssembleAppend(IntroEntries(parts), HeaderEntries(parts, 1, NormalizeKey, Strip));
  }

  /** A key is stored exactly when it is `introduction` with non-blank text
      before the first heading, or the non-empty key of some heading. */
  lemma SectionKeys(parts: seq<string>, k: string)
    requires |parts| > 0
    ensures k in SectionsOf(parts).text <==>
      || (k == Introduction && Strip(parts[0]) != [])
      || (k != [] && HeadingWithKey(parts, 1, NormalizeKey, k))
  {
    SectionsOfSplit(parts);
    HeaderKeys(parts, 1, NormalizeKey, Strip, k);
    IntroKeys(parts, k);
  }

  /** The introduction entry stores `introduction` exactly when the text
      before the first heading is not blank. */
  lemma IntroKeys(parts: seq<string>, k: string)
    requires |parts| > 0
    ensures k in Assemble(IntroEntries(parts)).text <==> k == Introduction && Strip(parts[0]) != []
  {
    AssembleKeys(IntroEntries(parts), k);
  }

  /** Every stored text is the trimmed introduction or the trimmed body of a
      heading that produced that very key: a heading whose key normalizes to
      empty contributes nothing, not even its body. */
  lemma SectionValueOrigin(parts: seq<string>, k: string)
    requires |parts| > 0 && k in SectionsOf(parts).text
    ensures || (k == Introduction && SectionsOf(parts).text[k] == Strip(parts[0]))
            || exists j :: HeadingPlace(parts, 1, j) && k == NormalizeKey(parts[j])
                 && SectionsOf(parts).text[k] == HeaderBody(parts, j, Strip)
  {
    var v := SectionsOf(parts).text[k];
    AssembleValueSplit(IntroEntries(parts), HeaderEntries(parts, 1, NormalizeKey, Strip), k);
    if Entry(k, v) in HeaderEntries(parts, 1, NormalizeKey, Strip) {
      HeaderEntryOrigin(parts, 1, NormalizeKey, Strip, Entry(k, v));
    }
  }

  /** When two headings give the same key the later body wins; this includes
      a heading whose key is `introduction`, which overwrites the text before
      the first heading. */
  lemma LaterHeadingWins(parts: seq<string>, j: nat)
    requires HeadingPlace(parts, 1, j) && NormalizeKey(parts[j]) != []
    requires forall q :: j < q && HeadingPlace(parts, 1, q) ==> NormalizeKey(parts[q]) != NormalizeKey(parts[j])
    ensures NormalizeKey(parts[j]) in SectionsOf(parts).text
    ensures SectionsOf(parts).text[NormalizeKey(parts[j])] == HeaderBody(parts, j, Strip)
  {
    SectionsOfSplit(parts);
    LaterHeadingWinsFrom(parts, 1, NormalizeKey, Strip, j);
  }

  /** Unless a heading claims the key, `introduction` is present exactly when
      the text before the first heading is not blank, and holds that text
      trimmed. */
  lemma IntroductionSection(parts: seq<string>)
    requires |parts| > 0 && !HeadingWithKey(parts, 1, NormalizeKey, Introduction)
    ensures Introduction in SectionsOf(parts).text <==> Strip(parts[0]) != []
    ensures Introduction in SectionsOf(parts).text ==> SectionsOf(parts).text[Introduction] == Strip(parts[0])
  {
    SectionsOfSplit(parts);
    HeaderKeys(parts, 1, NormalizeKey, Strip, Introduction);
    if Strip(parts[0]) != [] {
      LastEntryWins(IntroEntries(parts), 0);
    } else {
      AssembleKeys(IntroEntries(parts), Introduction);
    }
  }

  /** The first piece of the split is the text before the first heading. */
  lemma FirstPieceIsIntroText(content: string)
    ensures SplitHeadings(content)[0] == match NextHeading(content, 0)
      case None => content
      case Some(p) => content[..p]
  {
  }

  /** A README without heading lines is all introduction, trimmed, or
      nothing when it is blank. */
  lemma NoHeadingsIsAllIntroduction(content: string)
    requires NextHeading(content, 0).None?
    ensures Segment(content).text == if Strip(content) != [] then map[Introduction := Strip(content)] else map[]
    ensures Segment(content).keys == if Strip(content) != [] then [Introduction] else []
  {
    var parts := SplitHeadings(content);
    assert parts == [content];
    assert HeaderEntries(parts, 1, NormalizeKey, Strip) == [];
    assert IntroEntries(parts) + [] == IntroEntries(parts);
    if Strip(content) != [] {
      AssembleLast(IntroEntries(parts));
    }
  }
}
