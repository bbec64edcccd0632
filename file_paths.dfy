/** `MakeFilePathLegal`, which shortens a voice-line file name so that its
    full path fits the platform's path limit, and the extension scan of
    `GetExtensionFromPathWithout`. */
module FilePaths {
  import opened Wrappers

  /** `LONGEST_FILE_PATH`: the longest path the renamer will write. */
  const LongestFilePath: int := 248

  function Min(a: int, b: int): int { if a <= b then a else b }
  function Max(a: int, b: int): int { if a <= b then b else a }

  /** Characters after which `Path.Combine` adds no separator. */
  predicate EndsWithSeparator(dir: string)
  {
    dir != [] && (dir[|dir| - 1] == '\\' || dir[|dir| - 1] == '/' || dir[|dir| - 1] == ':')
  }

  /** `Path.Combine(dir, name)` for a `name` that is not rooted: `dir` alone
      when `name` is empty, `name` alone when `dir` is empty, otherwise `dir`
      and `name` with a '\' between them unless `dir` already ends with a
      separator. */
  function Combine(dir: string, name: string): (path: string)
    ensures |dir| + |name| <= |path| <= |dir| + 1 + |name|
  {
    if name == [] then dir
    else if dir == [] then name
    else if EndsWithSeparator(dir) then dir + name
    else dir + "\\" + name
  }

  /** The combined path starts with the directory and ends with the name. */
  lemma CombineKeepsParts(dir: string, name: string)
    ensures var path := Combine(dir, name);
      path[..|dir|] == dir && path[|path| - |name|..] == name
  {
  }

  /** `String.Insert(at, t)`. */
  function Insert(s: string, at: nat, t: string): string
    requires at <= |s|
  {
    s[..at] + t + s[at..]
  }

  /** How many characters of the shortened name may precede the extension:
      the limit less the directory and twice the extension, since the source
      counts the extension both in the length it needs and in the name it
      grows. */
  function Room(dirLength: int, ext: string): int
  {
    LongestFilePath - dirLength - 2 * |ext|
  }

  /** The first `count` characters the shortener inserts: the file name's
      own character while fewer than `room - 2` are placed, a '.' after that. */
  function Kept(fileName: string, room: int, count: nat): (inserted: string)
    requires count <= |fileName|
    ensures |inserted| == count
  {
    if count == 0 then ""
    else Kept(fileName, room, count - 1) + [if count - 1 < room - 2 then fileName[count - 1] else '.']
  }

  /** The name the shortener builds for a file name in a directory of length
      `dirLength`: as many inserted characters as the room allows (none when
      there is no room), then the extension. */
  function ShortenedName(fileName: string, dirLength: int, ext: string): string
  {
    var room := Room(dirLength, ext);
    Kept(fileName, room, Min(|fileName|, Max(0, room))) + ext
  }

  /** The inserted characters, one by one. */
  lemma {:induction false} KeptShape(fileName: string, room: int, count: nat)
    requires count <= |fileName|
    ensures forall j :: 0 <= j < count ==>
      Kept(fileName, room, count)[j] == if j < room - 2 then fileName[j] else '.'
  {
    if count > 0 {
      KeptShape(fileName, room, count - 1);
    }
  }

  /** The shortened name is the extension preceded by
      `min(|fileName|, max(0, room))` characters: those of the file name
      before position `room - 2`, dots from there on. */
  lemma ShortenedNameShape(fileName: string, dirLength: int, ext: string)
    ensures var name := ShortenedName(fileName, dirLength, ext);
      var count := Min(|fileName|, Max(0, Room(dirLength, ext)));
      |name| == |ext| + count &&
      name[count..] == ext &&
      forall j :: 0 <= j < count ==>
        name[j] == if j < Room(dirLength, ext) - 2 then fileName[j] else '.'
  {
    var room := Room(dirLength, ext);
    var count := Min(|fileName|, Max(0, room));
    KeptShape(fileName, room, count);
  }

  /** With a non-empty extension and a directory that, together with the
      extension, stays under the limit, the shortened path fits the limit. */
  lemma ShortenedPathFits(fileName: string, dir: string, ext: string)
    requires |ext| >= 1 && |dir| + |ext| < LongestFilePath
    ensures |Combine(dir, ShortenedName(fileName, |dir|, ext))| <= LongestFilePath
  {
    ShortenedNameShape(fileName, |dir|, ext);
  }

  /** When the directory and the extension alone reach the limit, only the
      extension is left, and the path is the directory, the separator
      `Combine` adds, and the extension: 248 characters or more. */
  lemma ShortenedPathOverflows(fileName: string, dir: string, ext: string)
    requires |ext| >= 1 && |dir| + |ext| >= LongestFilePath
    ensures |Combine(dir, ShortenedName(fileName, |dir|, ext))|
      == |dir| + |ext| + (if dir != [] && !EndsWithSeparator(dir) then 1 else 0)
  {
    ShortenedToExtension(fileName, |dir|, ext);
  }

  /** On a path that does not fit, with room for at least the two dots, the
      name is cut to `room - 2` characters and ends in "..", which together
      with the extension's own '.' reads as an ellipsis. */
  lemma ShortenedWithEllipsis(fileName: string, dir: string, ext: string)
    requires |Combine(dir, fileName + ext)| >= LongestFilePath
    requires |ext| >= 1 && Room(|dir|, ext) >= 2
    ensures ShortenedName(fileName, |dir|, ext) == fileName[..Room(|dir|, ext) - 2] + ".." + ext
  {
    var room := Room(|dir|, ext);
    KeptShape(fileName, room, room);
    assert Kept(fileName, room, room) == fileName[..room - 2] + "..";
  }

  /** Without an extension the room is not enough: the separator is not
      counted, so a long name in a directory without a trailing separator
      gives a path one character over the limit. */
  lemma ShortenedPathOverflowsWithoutExtension(fileName: string, dir: string)
    requires dir != [] && !EndsWithSeparator(dir) && |dir| < LongestFilePath
    requires |fileName| >= Room(|dir|, "")
    ensures |Combine(dir, ShortenedName(fileName, |dir|, ""))| == LongestFilePath + 1
  {
    ShortenedNameShape(fileName, |dir|, "");
  }

  /** When the directory and the extension leave no room, only the
      extension is left. */
  lemma ShortenedToExtension(fileName: string, dirLength: int, ext: string)
    requires Room(dirLength, ext) <= 0
    ensures ShortenedName(fileName, dirLength, ext) == ext
  {
  }

  /** Inserting the next character at the end of the inserted ones. */
  lemma KeptInsert(fileName: string, room: int, i: nat, ext: string)
    requires i < |fileName|
    ensures Insert(Kept(fileName, room, i) + ext, i, [if i < room - 2 then fileName[i] else '.'])
      == Kept(fileName, room, i + 1) + ext
  {
    KeptShape(fileName, room, i);
    var cut := Kept(fileName, room, i) + ext;
    assert cut[..i] == Kept(fileName, room, i) && cut[i..] == ext;
  }

  /** Returns the bare file name when its full path is already short enough,
      and otherwise the full path with the name shortened: file-name
      characters are inserted before the extension while the name is shorter
      than the room, and the last two inserted places become dots. */
  method MakeFilePathLegal(fileName: string, newSaveLocation: string, extension: string) returns (legal: string)
    ensures |Combine(newSaveLocation, fileName + extension)| < LongestFilePath ==> legal == fileName
    ensures |Combine(newSaveLocation, fileName + extension)| >= LongestFilePath ==>
      legal == Combine(newSaveLocation, ShortenedName(fileName, |newSaveLocation|, extension))
  {
    var allPath := Combine(newSaveLocation, fileName + extension);
    if |allPath| < LongestFilePath {
      return fileName;
    }

    var lengthNeeded := |newSaveLocation| + |extension|;
    var cutDownName := extension;
    var addCharsCount := LongestFilePath - lengthNeeded;
    var addedCharsCount := 0;
    ghost var room := Room(|newSaveLocation|, extension);
    var i := 0;
    while i < |fileName|
      invariant 0 <= i <= |fileName| && i <= Max(0, room)
      invariant addedCharsCount == i
      invariant cutDownName == Kept(fileName, room, i) + extension
    {
      if |cutDownName| < addCharsCount {
        KeptInsert(fileName, room, i, extension);
        if |cutDownName| > addCharsCount - 3 {
          cutDownName := Insert(cutDownName, addedCharsCount, ".");
        } else {
          cutDownName := Insert(cutDownName, addedCharsCount, [fileName[i]]);
        }
        addedCharsCount := addedCharsCount + 1;
      } else {
        break;
      }
      i := i + 1;
    }
    legal := Combine(newSaveLocation, cutDownName);
  }

  /** The extension as the scan finds it: everything from the first '.' of
      `path` on; nothing when `path` has no '.'. */
  function ExtensionSuffix(path: string): Option<string>
  {
    if path == [] then None
    else if path[0] == '.' then Some(path)
    else ExtensionSuffix(path[1..])
  }

  /** There is an extension exactly when the path holds a '.', and then it is
      a suffix of the path that starts with '.', with no '.' before it. */
  lemma {:induction false} ExtensionSuffixSpec(path: string)
    ensures ExtensionSuffix(path).None? <==> '.' !in path
    ensures ExtensionSuffix(path).Some? ==>
      var ext := ExtensionSuffix(path).value;
      1 <= |ext| <= |path| && ext[0] == '.' &&
      path[|path| - |ext|..] == ext && '.' !in path[..|path| - |ext|]
  {
    if path != [] && path[0] != '.' {
      ExtensionSuffixSpec(path[1..]);
      assert path == [path[0]] + path[1..];
      if ExtensionSuffix(path[1..]).Some? {
        var ext := ExtensionSuffix(path[1..]).value;
        assert path[..|path| - |ext|] == [path[0]] + path[1..][..|path| - 1 - |ext|];
      }
    }
  }

  /** Conversely, a path made of a '.'-free head and a tail starting with '.'
      has that tail as its extension. */
  lemma {:induction false} ExtensionSuffixOf(head: string, ext: string)
    requires '.' !in head && |ext| >= 1 && ext[0] == '.'
    ensures ExtensionSuffix(head + ext) == Some(ext)
  {
    if head != [] {
      ExtensionSuffixOf(head[1..], ext);
      assert (head + ext)[0] == head[0] && head[0] in head;
      assert (head + ext)[1..] == head[1..] + ext;
    } else {
      assert head + ext == ext;
    }
  }

  /** `k` is the index of the first '.' of `path`. */
  predicate IsFirstDot(path: string, k: int)
  {
    0 <= k < |path| && path[k] == '.' && '.' !in path[..k]
  }

  /** `GetExtensionFromPathWithout` on `first`, the first path the directory
      listing returns: finds the first '.', then copies every character from
      it to the end. `None` stands for the out-of-range index the source hits
      when there is no '.'. */
  method GetExtensionFromPathWithout(first: string) returns (fullExt: Option<string>)
    ensures fullExt == ExtensionSuffix(first)
  {
    var firstFullStopIndex := -1;
    for i := 0 to |first|
      invariant firstFullStopIndex == -1 ==> '.' !in first[..i]
      invariant firstFullStopIndex != -1 ==> IsFirstDot(first, firstFullStopIndex)
    {
      if first[i] == '.' {
        firstFullStopIndex := i;
        break;
      }
      assert first[..i + 1] == first[..i] + [first[i]];
    }
    if firstFullStopIndex == -1 {
      assert first[..|first|] == first;
      ExtensionSuffixSpec(first);
      return None;
    }

    var ext := "";
    for i := firstFullStopIndex to |first|
      invariant ext == first[firstFullStopIndex..i]
    {
      ext := ext + [first[i]];
    }
    assert ext == first[firstFullStopIndex..];
    ExtensionSuffixOf(first[..firstFullStopIndex], first[firstFullStopIndex..]);
    assert first[..firstFullStopIndex] + first[firstFullStopIndex..] == first;
    fullExt := Some(ext);
  }

  /** For a listed file whose directory and hex-code name hold no '.', the
      scan yields the file's own extension. */
  lemma ExtensionOfHexFile(dir: string, hexCode: string, ext: string)
    requires '.' !in dir && '.' !in hexCode && |ext| >= 1 && ext[0] == '.'
    ensures ExtensionSuffix(dir + "\\" + hexCode + ext) == Some(ext)
  {
    assert dir + "\\" + hexCode + ext == (dir + "\\" + hexCode) + ext;
    ExtensionSuffixOf(dir + "\\" + hexCode, ext);
  }

  /** The scan runs over the whole listed path, so a '.' in the directory
      (say "C:\Users\a.b\") is taken as the start of the extension: the result
      is the rest of the directory, the file name and its extension. */
  lemma ExtensionSuffixTakesFolderDot(head: string, dotted: string, hexCode: string, ext: string)
    requires '.' !in head && |dotted| >= 1 && dotted[0] == '.'
    ensures ExtensionSuffix(head + dotted + "\\" + hexCode + ext) == Some(dotted + "\\" + hexCode + ext)
    ensures ExtensionSuffix(head + dotted + "\\" + hexCode + ext) != Some(ext)
  {
    var tail := dotted + "\\" + hexCode + ext;
    assert head + dotted + "\\" + hexCode + ext == head + tail;
    ExtensionSuffixOf(head, tail);
  }

  /** The part of `path` after its last '\' or '/'. Unlike .NET's
      `Path.GetFileName`, it does not also cut at a volume separator ':'. */
  function FileName(path: string): string
  {
    if path == [] || path[|path| - 1] == '\\' || path[|path| - 1] == '/' then ""
    else FileName(path[..|path| - 1]) + [path[|path| - 1]]
  }

  /** The file name of a directory, a '\' and a separator-free name is that name. */
  lemma {:induction false} FileNameOf(dir: string, name: string)
    requires forall c :: c in name ==> c != '\\' && c != '/'
    ensures FileName(dir + "\\" + name) == name
  {
    if name != [] {
      var init := name[..|name| - 1];
      assert forall c :: c in init ==> c in name;
      FileNameOf(dir, init);
      assert name[|name| - 1] in name;
      assert (dir + "\\" + name)[..|dir + "\\" + name| - 1] == dir + "\\" + init;
      assert init + [name[|name| - 1]] == name;
    }
  }

  /** The extension scan applied to the file name alone, not the whole path. */
  function FileExtension(path: string): Option<string>
  {
    ExtensionSuffix(FileName(path))
  }

  /** The corrected scan yields the file's own extension whatever the
      directory holds. */
  lemma FileExtensionOfHexFile(dir: string, hexCode: string, ext: string)
    requires '.' !in hexCode && |ext| >= 1 && ext[0] == '.'
    requires forall c :: c in hexCode + ext ==> c != '\\' && c != '/'
    ensures FileExtension(dir + "\\" + hexCode + ext) == Some(ext)
  {
    assert dir + "\\" + hexCode + ext == dir + "\\" + (hexCode + ext);
    FileNameOf(dir, hexCode + ext);
    ExtensionSuffixOf(hexCode, ext);
  }

  /** The two scans on one listed path under a dotted folder. */
  lemma DottedFolderExample()
    ensures ExtensionSuffix("C:\\v1.0\\0x0001.wem") == Some(".0\\0x0001.wem")
    ensures FileExtension("C:\\v1.0\\0x0001.wem") == Some(".wem")
  {
    DottedFolderSpelled();
    ExtensionSuffixTakesFolderDot("C:\\v1", ".0", "0x0001", ".wem");
    FileExtensionOfHexFile("C:\\v1.0", "0x0001", ".wem");
  }

  // Solver aid: the literal spellings used by `DottedFolderExample`.

  lemma DottedFolderSpelled()
    ensures "C:\\v1" + ".0" + "\\" + "0x0001" + ".wem" == "C:\\v1.0\\0x0001.wem"
    ensures ".0" + "\\" + "0x0001" + ".wem" == ".0\\0x0001.wem"
    ensures "C:\\v1.0" + "\\" + "0x0001" + ".wem" == "C:\\v1.0\\0x0001.wem"
  {
  }
}
