/** `GetVoiceLineFromLine`: turns one transcript line into a voice-line
    record, or into nothing when the line is not a data line. */
module VoiceLines {
  import opened Wrappers
  import opened Text
  import opened FileNames

  /** `VoiceLineData`: the original file's hex code, the spoken line as a
      file name, and the speaking character (the destination folder). */
  datatype VoiceLineData = VoiceLineData(hexCode: string, voiceLineFileName: string, character: string)

  /** The substring that marks a hex-code piece. */
  const HexMarker: string := "0x0"

  /** `c` is the index of the first piece that holds a ':'. */
  predicate IsSeparatorIndex(split: seq<string>, c: int)
  {
    0 <= c < |split| && ':' in split[c] && forall j :: 0 <= j < c ==> ':' !in split[j]
  }

  /** `h` is the index of the first piece other than the separator `c` that
      holds the hex marker. */
  predicate IsHexCodeIndex(split: seq<string>, c: int, h: int)
  {
    0 <= h < |split| && h != c && Contains(split[h], HexMarker) &&
    forall j :: 0 <= j < h && j != c ==> !Contains(split[j], HexMarker)
  }

  /** The first piece at or after `from` that holds a ':'. */
  function SeparatorIndex(split: seq<string>, from: nat): (r: Option<nat>)
    requires from <= |split|
    ensures r.None? <==> forall i :: from <= i < |split| ==> ':' !in split[i]
    ensures r.Some? ==> from <= r.value < |split| && ':' in split[r.value]
    ensures r.Some? ==> forall j :: from <= j < r.value ==> ':' !in split[j]
    decreases |split| - from
  {
    if from == |split| then None
    else if ':' in split[from] then Some(from)
    else SeparatorIndex(split, from + 1)
  }

  /** The first piece at or after `from`, other than the separator piece `c`,
      that holds the hex marker. */
  function HexCodeIndex(split: seq<string>, c: nat, from: nat): (r: Option<nat>)
    requires from <= |split|
    ensures r.None? <==> forall i :: from <= i < |split| && i != c ==> !Contains(split[i], HexMarker)
    ensures r.Some? ==> from <= r.value < |split| && r.value != c && Contains(split[r.value], HexMarker)
    ensures r.Some? ==> forall j :: from <= j < r.value && j != c ==> !Contains(split[j], HexMarker)
    decreases |split| - from
  {
    if from == |split| then None
    else if from != c && Contains(split[from], HexMarker) then Some(from)
    else HexCodeIndex(split, c, from + 1)
  }

  /** A piece with its ':' removed, when it holds any. */
  function ColonFree(piece: string): string
  {
    if ':' in piece then Remove(piece, {':'}) else piece
  }

  /** The pieces `lo .. k - 1`, each without ':', concatenated. */
  function CharacterPieces(split: seq<string>, lo: nat, k: nat): string
    requires lo <= k <= |split|
    decreases k
  {
    if k == lo then ""
    else CharacterPieces(split, lo, k - 1) + ColonFree(split[k - 1])
  }

  /** The character folder: the pieces from just after the hex code up to and
      including the separator, concatenated, without any ':'. Empty when the
      hex code comes after the separator. */
  function CharacterName(split: seq<string>, h: nat, c: nat): (name: string)
    requires h < |split| && c < |split|
    ensures ':' !in name
  {
    if h < c then
      CharacterPiecesAsRemove(split, h + 1, c + 1);
      RemoveClean(Concat(split[h + 1..c + 1]), {':'});
      CharacterPieces(split, h + 1, c + 1)
    else ""
  }

  /** Removing ':' piece by piece is removing it from the concatenation of
      the pieces. */
  lemma {:induction false} CharacterPiecesAsRemove(split: seq<string>, lo: nat, k: nat)
    requires lo <= k <= |split|
    ensures CharacterPieces(split, lo, k) == Remove(Concat(split[lo..k]), {':'})
    decreases k
  {
    if k == lo {
      assert split[lo..k] == [];
    } else {
      CharacterPiecesAsRemove(split, lo, k - 1);
      CharacterPiecesStep(split, lo, k);
    }
  }

  /** One more piece on both sides of `CharacterPiecesAsRemove`. */
  lemma CharacterPiecesStep(split: seq<string>, lo: nat, k: nat)
    requires lo < k <= |split|
    requires CharacterPieces(split, lo, k - 1) == Remove(Concat(split[lo..k - 1]), {':'})
    ensures CharacterPieces(split, lo, k) == Remove(Concat(split[lo..k]), {':'})
  {
    CharacterPiecesUnfold(split, lo, k);
    CharacterStep(split, lo, k);
  }

  /** One more piece of the character. */
  lemma CharacterPiecesUnfold(split: seq<string>, lo: nat, k: nat)
    requires lo < k <= |split|
    ensures CharacterPieces(split, lo, k) == CharacterPieces(split, lo, k - 1) + ColonFree(split[k - 1])
  {
  }

  /** What piece `i` adds to the line's file name: nothing when the piece
      is empty, otherwise the piece without the characters of `invalid`,
      followed by '_' unless it is the very last piece of the line. */
  function Piece(split: seq<string>, invalid: set<char>, i: nat): string
    requires i < |split|
  {
    if |split[i]| == 0 then ""
    else Remove(split[i], invalid) + (if i < |split| - 1 then "_" else "")
  }

  /** The contributions of pieces `from .. k - 1`, in order. */
  function Pieces(split: seq<string>, invalid: set<char>, from: nat, k: nat): string
    requires from <= k <= |split|
    decreases k
  {
    if k == from then ""
    else Pieces(split, invalid, from, k - 1) + Piece(split, invalid, k - 1)
  }

  /** The voice line as a file name, from the pieces after the separator. */
  function LineText(split: seq<string>, from: nat, invalid: set<char>): string
    requires from <= |split|
  {
    Pieces(split, invalid, from, |split|)
  }

  /** The sanitised texts of the non-empty pieces `from .. k - 1`, in order. */
  function Words(split: seq<string>, invalid: set<char>, from: nat, k: nat): seq<string>
    requires from <= k <= |split|
    decreases k
  {
    if k == from then []
    else Words(split, invalid, from, k - 1) + (if |split[k - 1]| == 0 then [] else [Remove(split[k - 1], invalid)])
  }

  /** The record the source builds for `line`, or `None` (its `null`). */
  function ParseLine(line: string, invalid: set<char>): Option<VoiceLineData>
  {
    var split := Split(line, ' ');
    match SeparatorIndex(split, 0)
    case None => None
    case Some(c) =>
      match HexCodeIndex(split, c, 0)
      case None => None
      case Some(h) => Some(Record(split, invalid, c, h))
  }

  /** The record for separator index `c` and hex-code index `h`: the raw
      piece `h`, the line text of the pieces after `c`, and the character
      built from the pieces between. */
  function Record(split: seq<string>, invalid: set<char>, c: nat, h: nat): VoiceLineData
    requires c < |split| && h < |split|
  {
    VoiceLineData(split[h], LineText(split, c + 1, invalid), CharacterName(split, h, c))
  }

  /** A parsed record comes from a line with at least two pieces; its hex
      code is one whole piece holding the hex marker (so it has no space),
      its character has no ':', and, when '_' is allowed in file names, its
      file name holds no invalid character. */
  lemma ParseLineFields(line: string, invalid: set<char>)
    ensures var r := ParseLine(line, invalid);
      r.Some? ==> line != "" && |Split(line, ' ')| >= 2
    ensures var r := ParseLine(line, invalid);
      r.Some? ==> Contains(r.value.hexCode, HexMarker) && r.value.hexCode in Split(line, ' ')
    ensures var r := ParseLine(line, invalid);
      r.Some? ==> ' ' !in r.value.hexCode && ':' !in r.value.character
    ensures var r := ParseLine(line, invalid);
      r.Some? && '_' !in invalid ==> forall ch :: ch in r.value.voiceLineFileName ==> ch !in invalid
  {
    var split := Split(line, ' ');
    match SeparatorIndex(split, 0)
    case None =>
    case Some(c) =>
      match HexCodeIndex(split, c, 0)
      case None =>
      case Some(h) =>
        SplitProperties(line, ' ');
        LineTextClean(split, c + 1, invalid);
  }

  /** When '_' is allowed, the pieces hold no invalid character. */
  lemma {:induction false} PiecesClean(split: seq<string>, from: nat, k: nat, invalid: set<char>)
    requires from <= k <= |split|
    requires '_' !in invalid
    ensures Clean(Pieces(split, invalid, from, k), invalid)
  {
    if k > from {
      PiecesClean(split, from, k - 1, invalid);
      PiecesCleanStep(split, from, k, invalid);
    }
  }

  /** One step of `PiecesClean`. */
  lemma PiecesCleanStep(split: seq<string>, from: nat, k: nat, invalid: set<char>)
    requires from < k <= |split|
    requires '_' !in invalid
    requires Clean(Pieces(split, invalid, from, k - 1), invalid)
    ensures Clean(Pieces(split, invalid, from, k), invalid)
  {
    var prev, piece := Pieces(split, invalid, from, k - 1), Piece(split, invalid, k - 1);
    PieceClean(split, invalid, k - 1);
    assert Pieces(split, invalid, from, k) == prev + piece;
    CleanAppend(prev, piece, invalid);
  }

  /** One piece holds no invalid character when '_' is allowed. */
  lemma PieceClean(split: seq<string>, invalid: set<char>, i: nat)
    requires i < |split|
    requires '_' !in invalid
    ensures Clean(Piece(split, invalid, i), invalid)
  {
    if |split[i]| > 0 {
      RemoveClean(split[i], invalid);
      var tail := if i < |split| - 1 then "_" else "";
      CleanAppend(Remove(split[i], invalid), tail, invalid);
    }
  }

  /** No character of `s` is in `invalid`. */
  predicate Clean(s: string, invalid: set<char>)
  {
    forall ch :: ch in s ==> ch !in invalid
  }

  /** With '_' allowed in file names, the line text holds no invalid character. */
  lemma LineTextClean(split: seq<string>, from: nat, invalid: set<char>)
    requires from <= |split|
    ensures '_' !in invalid ==> forall ch :: ch in LineText(split, from, invalid) ==> ch !in invalid
  {
    if '_' !in invalid {
      PiecesClean(split, from, |split|, invalid);
      assert Clean(LineText(split, from, invalid), invalid);
    }
  }

  /** `ParseLine` returns `None` exactly when no piece holds a ':', or when no
      piece other than the first ':' piece holds the hex marker. */
  lemma ParseLineNoneIff(line: string, invalid: set<char>)
    ensures var split := Split(line, ' ');
      ParseLine(line, invalid).None? <==>
        (forall i :: 0 <= i < |split| ==> ':' !in split[i]) ||
        (exists c :: IsSeparatorIndex(split, c) &&
           forall i :: 0 <= i < |split| && i != c ==> !Contains(split[i], HexMarker))
  {
    var split := Split(line, ' ');
    match SeparatorIndex(split, 0)
    case None =>
    case Some(c) =>
      assert IsSeparatorIndex(split, c);
      assert forall c' :: IsSeparatorIndex(split, c') ==> c' == c;
  }

  /** When `c` is the first ':' piece and `h` the first other piece holding
      the hex marker, the record is the raw piece `h`, the line text of the
      pieces after `c`, and the character built from the pieces between. */
  lemma ParsedFields(line: string, invalid: set<char>, c: nat, h: nat)
    requires IsSeparatorIndex(Split(line, ' '), c)
    requires IsHexCodeIndex(Split(line, ' '), c, h)
    ensures ParseLine(line, invalid) == Some(Record(Split(line, ' '), invalid, c, h))
  {
    var split := Split(line, ' ');
    SeparatorIndexIs(split, c);
    HexCodeIndexIs(split, c, h);
  }

  /** The separator index is the one the predicate describes. */
  lemma SeparatorIndexIs(split: seq<string>, c: nat)
    requires IsSeparatorIndex(split, c)
    ensures SeparatorIndex(split, 0) == Some(c)
  {
    var r := SeparatorIndex(split, 0);
    assert r.Some?;
    assert !(r.value < c) && !(c < r.value);
  }

  /** The hex-code index is the one the predicate describes. */
  lemma HexCodeIndexIs(split: seq<string>, c: nat, h: nat)
    requires IsHexCodeIndex(split, c, h)
    ensures HexCodeIndex(split, c, 0) == Some(h)
  {
    var r := HexCodeIndex(split, c, 0);
    assert r.Some?;
    assert !(r.value < h) && !(h < r.value);
  }

  /** While every piece before `k` is followed by '_', the pieces are the
      sanitised words, each followed by '_'. */
  lemma {:induction false} PiecesFollowed(split: seq<string>, invalid: set<char>, from: nat, k: nat)
    requires from <= k < |split|
    ensures FollowedAt(split, invalid, from, k)
  {
    if k > from {
      PiecesFollowed(split, invalid, from, k - 1);
      PiecesFollowedStep(split, invalid, from, k);
    } else {
      PiecesFollowedBase(split, invalid, from);
    }
  }

  /** No pieces and no words. */
  lemma PiecesFollowedBase(split: seq<string>, invalid: set<char>, from: nat)
    requires from <= |split|
    ensures FollowedAt(split, invalid, from, from)
  {
  }

  /** The pieces up to `k` are the words up to `k`, each followed by '_'. */
  predicate FollowedAt(split: seq<string>, invalid: set<char>, from: nat, k: nat)
    requires from <= k <= |split|
  {
    Pieces(split, invalid, from, k) == Suffixed(Words(split, invalid, from, k), '_')
  }

  /** One step of `PiecesFollowed`. */
  lemma PiecesFollowedStep(split: seq<string>, invalid: set<char>, from: nat, k: nat)
    requires from < k < |split|
    requires FollowedAt(split, invalid, from, k - 1)
    ensures FollowedAt(split, invalid, from, k)
  {
    var w := Words(split, invalid, from, k - 1);
    if |split[k - 1]| > 0 {
      var word := Remove(split[k - 1], invalid);
      assert Words(split, invalid, from, k) == w + [word];
      SuffixedSnoc(w, word, '_');
    } else {
      assert Words(split, invalid, from, k) == w;
    }
  }

  /** The sanitised non-empty pieces from `from` on (the line's words). */
  function LineWords(split: seq<string>, from: nat, invalid: set<char>): seq<string>
    requires from <= |split|
  {
    Words(split, invalid, from, |split|)
  }

  /** The line text is the line's words joined by '_', with one more '_' at
      the end when the line ends in an empty piece (a trailing space) after at
      least one word. So when the last piece is non-empty the text ends with
      that piece, sanitised, and not with an added '_'. */
  lemma LineTextAsJoin(split: seq<string>, from: nat, invalid: set<char>)
    requires from <= |split|
    ensures var w := LineWords(split, from, invalid);
      LineText(split, from, invalid) ==
        Join(w, '_') + (if from < |split| && |split[|split| - 1]| == 0 && w != [] then "_" else "")
  {
    var n := |split|;
    if from < n {
      PiecesFollowed(split, invalid, from, n - 1);
      if |split[n - 1]| > 0 {
        LastWordJoin(split, invalid, from);
        var joined := Join(LineWords(split, from, invalid), '_');
        assert joined + "" == joined;
      } else {
        TrailingEmptyJoin(split, invalid, from);
      }
    } else {
      assert LineText(split, from, invalid) == "" && LineWords(split, from, invalid) == [];
    }
  }

  /** A line whose last piece is a word: the words joined by '_'. */
  lemma LastWordJoin(split: seq<string>, invalid: set<char>, from: nat)
    requires from < |split| && |split[|split| - 1]| > 0
    requires FollowedAt(split, invalid, from, |split| - 1)
    ensures LineText(split, from, invalid) == Join(LineWords(split, from, invalid), '_')
  {
    var n := |split|;
    var w := Words(split, invalid, from, n - 1);
    var word := Remove(split[n - 1], invalid);
    assert LineWords(split, from, invalid) == w + [word];
    assert Piece(split, invalid, n - 1) == word;
    PiecesStep(split, invalid, from, n - 1);
    JoinSuffixed(w, word, '_');
  }

  /** A line whose last piece is empty: every word followed by '_'. */
  lemma TrailingEmptyJoin(split: seq<string>, invalid: set<char>, from: nat)
    requires from < |split| && |split[|split| - 1]| == 0
    requires FollowedAt(split, invalid, from, |split| - 1)
    ensures var w := LineWords(split, from, invalid);
      LineText(split, from, invalid) == Join(w, '_') + (if w != [] then "_" else "")
  {
    EmptyLast(split, invalid, from, |split|);
    var w := Words(split, invalid, from, |split| - 1);
    if w != [] {
      SuffixedAsJoin(w, '_');
    }
  }

  /** An empty piece adds neither text nor a word. */
  lemma EmptyLast(split: seq<string>, invalid: set<char>, from: nat, k: nat)
    requires from < k <= |split| && |split[k - 1]| == 0
    ensures Pieces(split, invalid, from, k) == Pieces(split, invalid, from, k - 1)
    ensures Words(split, invalid, from, k) == Words(split, invalid, from, k - 1)
  {
    var w := Words(split, invalid, from, k - 1);
    assert Words(split, invalid, from, k) == w + [];
    assert w + [] == w;
    var p := Pieces(split, invalid, from, k - 1);
    assert Pieces(split, invalid, from, k) == p + "";
    assert p + "" == p;
  }

  /** The line `Main` pre-filters away (empty, or fewer than two pieces) never
      parses, so the pre-filter drops no data line. */
  lemma PreFilterKeepsDataLines(line: string, invalid: set<char>)
    requires line == "" || |Split(line, ' ')| < 2
    ensures ParseLine(line, invalid).None?
  {
  }

  /** The worked example: "0x0001A2B3 GERALT : Hello there ." gives the hex
      code "0x0001A2B3", the character "GERALT" and the file name
      "Hello_there_.". */
  lemma ExampleLine(invalid: set<char>)
    requires forall ch :: ch in "Hellothere." ==> ch !in invalid
    ensures ParseLine("0x0001A2B3 GERALT : Hello there .", invalid) ==
      Some(VoiceLineData("0x0001A2B3", "Hello_there_.", "GERALT"))
  {
    var parts := ExampleParts();
    ExampleSplit();
    ExampleIndices();
    ParsedFields("0x0001A2B3 GERALT : Hello there .", invalid, 2, 0);
    ExampleCharacter();
    ExampleLineText(invalid);
  }

  /** The pieces of the worked example. */
  function ExampleParts(): seq<string>
  {
    ["0x0001A2B3", "GERALT", ":", "Hello", "there", "."]
  }

  lemma ExampleSplit()
    ensures Split("0x0001A2B3 GERALT : Hello there .", ' ') == ExampleParts()
  {
    SplitSixWords("0x0001A2B3", "GERALT", ":", "Hello", "there", ".");
    ExampleSpelled();
  }

  /** Six space-free words joined by single spaces split back into them. */
  lemma SplitSixWords(w0: string, w1: string, w2: string, w3: string, w4: string, w5: string)
    requires ' ' !in w0 && ' ' !in w1 && ' ' !in w2 && ' ' !in w3 && ' ' !in w4 && ' ' !in w5
    ensures Split(w0 + " " + w1 + " " + w2 + " " + w3 + " " + w4 + " " + w5, ' ') == [w0, w1, w2, w3, w4, w5]
  {
    SplitWithoutSeparator(w0, ' ');
    SplitAfterSeparator(w0, w1, ' ');
    SplitAfterSeparator(w0 + " " + w1, w2, ' ');
    SplitAfterSeparator(w0 + " " + w1 + " " + w2, w3, ' ');
    SplitAfterSeparator(w0 + " " + w1 + " " + w2 + " " + w3, w4, ' ');
    SplitAfterSeparator(w0 + " " + w1 + " " + w2 + " " + w3 + " " + w4, w5, ' ');
  }

  lemma ExampleIndices()
    ensures IsSeparatorIndex(ExampleParts(), 2) && IsHexCodeIndex(ExampleParts(), 2, 0)
  {
    assert OccursAt(ExampleParts()[0], HexMarker, 0);
  }

  lemma ExampleCharacter()
    ensures CharacterName(ExampleParts(), 0, 2) == "GERALT"
  {
    CharacterNameOfTwo(ExampleParts(), "GERALT");
  }

  /** A name piece followed by a bare ":" piece gives that name. */
  lemma CharacterNameOfTwo(split: seq<string>, name: string)
    requires 3 <= |split| && split[1] == name && name != "" && ':' !in name && split[2] == ":"
    ensures CharacterName(split, 0, 2) == name
  {
    assert ColonFree(":") == Remove("", {':'}) + "";
    assert CharacterPieces(split, 1, 2) == "" + name;
  }

  lemma ExampleLineText(invalid: set<char>)
    requires forall ch :: ch in "Hellothere." ==> ch !in invalid
    ensures LineText(ExampleParts(), 3, invalid) == "Hello_there_."
  {
    ExampleWordsSpelled();
    LineTextOfThree(ExampleParts(), "Hello", "there", ".", invalid);
  }

  /** Three clean, non-empty pieces after the separator at index 2, ending
      the line, give those pieces joined by '_'. */
  lemma LineTextOfThree(split: seq<string>, a: string, b: string, c: string, invalid: set<char>)
    requires |split| == 6 && split[3] == a && split[4] == b && split[5] == c
    requires a != "" && b != "" && c != ""
    requires forall ch :: ch in a + b + c ==> ch !in invalid
    ensures LineText(split, 3, invalid) == a + "_" + b + "_" + c
  {
    UnchangedThree(a, b, c, invalid);
    var p3, p4 := a + "_", b + "_";
    assert Piece(split, invalid, 3) == p3 && Piece(split, invalid, 4) == p4 && Piece(split, invalid, 5) == c;
    PiecesStep(split, invalid, 3, 3);
    assert Pieces(split, invalid, 3, 4) == p3;
    PiecesStep(split, invalid, 3, 4);
    PiecesStep(split, invalid, 3, 5);
    assert Pieces(split, invalid, 3, 6) == p3 + p4 + c;
    AppendThree(p3, b, "_");
  }

  /** Removing characters none of three strings hold changes none of them. */
  lemma UnchangedThree(a: string, b: string, c: string, invalid: set<char>)
    requires forall ch :: ch in a + b + c ==> ch !in invalid
    ensures Remove(a, invalid) == a && Remove(b, invalid) == b && Remove(c, invalid) == c
  {
    assert forall ch :: ch in a || ch in b || ch in c ==> ch in a + b + c;
    RemoveUnchangedIff(a, invalid);
    RemoveUnchangedIff(b, invalid);
    RemoveUnchangedIff(c, invalid);
  }

  /** The first loop of `GetVoiceLineFromLine`: skips empty pieces, takes
      the first piece holding ':' as the separator, and otherwise the first
      piece holding the hex marker as the hex code; -1 when none is found. */
  method FindSeparatorAndHexCode(split: seq<string>) returns (hexCodeIndex: int, colonIndex: int)
    ensures colonIndex == -1 ==> forall j :: 0 <= j < |split| ==> ':' !in split[j]
    ensures colonIndex != -1 ==> IsSeparatorIndex(split, colonIndex)
    ensures hexCodeIndex == -1 ==> forall j :: 0 <= j < |split| && j != colonIndex ==> !Contains(split[j], HexMarker)
    ensures hexCodeIndex != -1 ==> IsHexCodeIndex(split, colonIndex, hexCodeIndex)
  {
    hexCodeIndex := -1;
    colonIndex := -1;
    for i := 0 to |split|
      invariant -1 <= colonIndex < i && -1 <= hexCodeIndex < i
      invariant colonIndex == -1 ==> forall j :: 0 <= j < i ==> ':' !in split[j]
      invariant colonIndex != -1 ==> IsSeparatorIndex(split, colonIndex)
      invariant hexCodeIndex == -1 ==> forall j :: 0 <= j < i && j != colonIndex ==> !Contains(split[j], HexMarker)
      invariant hexCodeIndex != -1 ==> IsHexCodeIndex(split, colonIndex, hexCodeIndex)
    {
      if |split[i]| == 0 {
        continue;
      }
      if ':' in split[i] && colonIndex == -1 {
        colonIndex := i;
      } else if Contains(split[i], HexMarker) && hexCodeIndex == -1 {
        hexCodeIndex := i;
      }
    }
  }

  /** Concatenating one more piece and removing ':' appends that piece
      without its ':' (the piece itself when it holds none). */
  lemma CharacterStep(split: seq<string>, lo: nat, k: nat)
    requires lo < k <= |split|
    ensures Remove(Concat(split[lo..k]), {':'}) == Remove(Concat(split[lo..k - 1]), {':'}) + ColonFree(split[k - 1])
  {
    var pieces := split[lo..k];
    assert pieces[..|pieces| - 1] == split[lo..k - 1];
    assert pieces[|pieces| - 1] == split[k - 1];
    RemoveAppend(Concat(split[lo..k - 1]), split[k - 1], {':'});
    if ':' !in split[k - 1] {
      RemoveUnchangedIff(split[k - 1], {':'});
    }
  }

  /** One more piece of the line text. */
  lemma PiecesStep(split: seq<string>, invalid: set<char>, from: nat, i: nat)
    requires from <= i < |split|
    ensures Pieces(split, invalid, from, i + 1) == Pieces(split, invalid, from, i) + Piece(split, invalid, i)
  {
  }

  /** Piece `i` appended to the character. */
  lemma CharacterPiecesNext(split: seq<string>, lo: nat, i: nat)
    requires lo <= i < |split|
    ensures CharacterPieces(split, lo, i + 1) == CharacterPieces(split, lo, i) + ColonFree(split[i])
  {
  }

  /** The second loop of `GetVoiceLineFromLine`: the non-empty pieces after
      the hex code up to the separator, concatenated with ':' removed. */
  method CharacterFolderName(split: seq<string>, hexCodeIndex: nat, colonIndex: nat) returns (characterFolderName: string)
    requires hexCodeIndex < |split| && colonIndex < |split|
    ensures characterFolderName == CharacterName(split, hexCodeIndex, colonIndex)
  {
    characterFolderName := "";
    var i := hexCodeIndex + 1;
    while i < colonIndex + 1
      invariant hexCodeIndex + 1 <= i <= |split|
      invariant i <= colonIndex + 1 || i == hexCodeIndex + 1
      invariant characterFolderName == CharacterPieces(split, hexCodeIndex + 1, i)
    {
      ghost var before := characterFolderName;
      ghost var piece := ColonFree(split[i]);
      CharacterPiecesNext(split, hexCodeIndex + 1, i);
      if |split[i]| > 0 {
        var formatted := split[i];
        if ':' in formatted {
          formatted := Remove(split[i], {':'});
        }
        assert formatted == piece;
        characterFolderName := characterFolderName + formatted;
      } else {
        assert piece == "" && before + "" == before;
      }
      assert characterFolderName == before + piece;
      i := i + 1;
    }
  }

  /** The third loop of `GetVoiceLineFromLine`: every non-empty piece after
      the separator, sanitised, each followed by '_' unless it is the last
      piece of the line. */
  method VoiceLineFileName(split: seq<string>, colonIndex: nat, invalidChars: seq<char>) returns (voiceLineFileName: string)
    requires colonIndex < |split|
    ensures voiceLineFileName == LineText(split, colonIndex + 1, CharSet(invalidChars))
  {
    voiceLineFileName := "";
    ghost var invalid := CharSet(invalidChars);
    var i := colonIndex + 1;
    while i < |split|
      invariant colonIndex + 1 <= i <= |split|
      invariant voiceLineFileName == Pieces(split, invalid, colonIndex + 1, i)
    {
      ghost var before := voiceLineFileName;
      ghost var piece := Piece(split, invalid, i);
      PiecesStep(split, invalid, colonIndex + 1, i);
      if |split[i]| > 0 {
        var sanitised := RemoveInvalidChars(split[i], invalidChars);
        voiceLineFileName := voiceLineFileName + sanitised;
        if i < |split| - 1 {
          voiceLineFileName := voiceLineFileName + "_";
          AppendThree(before, sanitised, "_");
          assert piece == sanitised + "_";
        } else {
          assert piece == sanitised;
        }
      } else {
        assert piece == "" && before + "" == before;
      }
      assert voiceLineFileName == before + piece;
      i := i + 1;
    }
  }

  /** Splits the line at spaces, finds the separator and the hex code, and
      builds the record; nothing when either is missing. */
  method GetVoiceLineFromLine(line: string, invalidChars: seq<char>) returns (data: Option<VoiceLineData>)
    ensures data == ParseLine(line, CharSet(invalidChars))
  {
    var split := Split(line, ' ');
    var hexCodeIndex, colonIndex := FindSeparatorAndHexCode(split);
    if hexCodeIndex == -1 || colonIndex == -1 {
      if colonIndex != -1 {
        assert SeparatorIndex(split, 0) == Some(colonIndex);
      }
      return None;
    }
    var characterFolderName := CharacterFolderName(split, hexCodeIndex, colonIndex);
    var voiceLineFileName := VoiceLineFileName(split, colonIndex, invalidChars);
    ParsedFields(line, CharSet(invalidChars), colonIndex, hexCodeIndex);
    data := Some(VoiceLineData(split[hexCodeIndex], voiceLineFileName, characterFolderName));
    assert data.value == Record(split, CharSet(invalidChars), colonIndex, hexCodeIndex);
  }

  // Solver aids: facts about concatenation and literal spellings that Dafny
  // knows but does not find unaided inside the larger proofs above.

  /** Joining two clean strings gives a clean string. */
  lemma CleanAppend(a: string, b: string, invalid: set<char>)
    requires Clean(a, invalid) && Clean(b, invalid)
    ensures Clean(a + b, invalid)
  {
  }

  /** The worked example's line, spelled out. */
  lemma ExampleSpelled()
    ensures "0x0001A2B3" + " " + "GERALT" + " " + ":" + " " + "Hello" + " " + "there" + " " + "." ==
      "0x0001A2B3 GERALT : Hello there ."
  {
  }

  /** The example's words, run together and joined by '_'. */
  lemma ExampleWordsSpelled()
    ensures "Hello" + "there" + "." == "Hellothere."
    ensures "Hello" + "_" + "there" + "_" + "." == "Hello_there_."
  {
  }

  /** Appending two strings one after the other appends their concatenation. */
  lemma AppendThree(a: string, b: string, c: string)
    ensures a + b + c == a + (b + c)
  {
  }
}
