# Witcher 3 voice-file renamer: a Dafny model

The renamer reads a transcript of Witcher 3 dialogue. Usable lines look like
`0x0001A2B3 GERALT : Hello there .`. For each such line it moves the extracted
audio file named by the hex code into a per-character folder, under a name made
from the spoken line. This project models the part of `Program.cs` that turns
text into names:

- **`GetVoiceLineFromLine`** turns one transcript line into a `VoiceLineData`
  record, or into `null` when the line is not a data line. A record holds the
  hex code, the voice line as a file name, and the character.
  - The line is split at single spaces, with empty pieces kept.
  - The separator is the first piece holding a `:`.
  - The hex code is the first other piece holding `0x0`.
  - The character is the pieces after the hex code up to and including the
    separator, concatenated with `:` removed.
  - The file name is every non-empty piece after the separator, sanitised, each
    followed by `_` unless it is the last piece of the line.
- **`RemoveInvalidChars`** deletes every character the platform forbids in
  file names.
- **`MakeFilePathLegal`** shortens a file name whose full path would exceed the
  248-character limit (`LONGEST_FILE_PATH`).
- **`GetExtensionFromPathWithout`** scans the first listed audio file for its
  extension.

Modules:

- `Wrappers` holds `Option`. `None` stands for the source's `null`.
- `Text` holds the .NET string operations as functions on `seq<char>`, with
  their laws: `Split(char)`, `Replace(c, "")` (as `Remove`), `Contains` and
  concatenation.
- `FileNames` holds `RemoveInvalidChars`.
- `VoiceLines` holds the record, the parser's specification `ParseLine`, and its
  three loops as methods.
- `FilePaths` holds the shortener and the extension scan.

Each source routine is a method with the source's loops. Its postcondition ties
the result to a specification function. The properties are lemmas about those
functions.

In these places the code does something a reader may not expect; the model
follows the code:

- **File-name suffix.** The trailing `_` is left off only when the word is the
  last piece of the line. A line that ends with a space after at least one word
  of spoken text therefore gives a file name ending in `_` (`LineTextAsJoin`).
- **Hex-code piece.** The hex code is the first piece holding `0x0` other than
  the separator piece. It may come after the separator, and the character is
  then empty.
- **Room left by the shortener.** It subtracts the extension twice, because the
  name it grows already starts as the extension. When the extension is non-empty,
  the room is at least 2 and the name does not fit, it keeps `room - 2`
  characters of the name and then two dots, which read as an ellipsis together
  with the extension's own leading `.`. With an empty extension it can end
  the name in a single `.`, for a name one character shorter than the room.
- **Extension scan.** It looks for the first `.` of the whole listed path, not
  of the file name (see Findings).

## Model

| member | source | states |
|---|---|---|
| VoiceLines.GetVoiceLineFromLine | Witcher3_VoiceFilesRenamer/Witcher3_VoiceFilesRenamer/Program.cs:133-193 | The method's record, or `None`, is exactly `ParseLine` of the line, with the platform's invalid characters as the sanitised set. |
| VoiceLines.FindSeparatorAndHexCode | Witcher3_VoiceFilesRenamer/Witcher3_VoiceFilesRenamer/Program.cs:138-152 | `colonIndex = -1` means no piece holds ':'; otherwise it is the first ':' piece. `hexCodeIndex = -1` means no piece other than the separator holds "0x0"; otherwise it is the first such piece. Empty pieces are skipped, and the ':' test wins on a piece holding both. |
| VoiceLines.SeparatorIndex | Witcher3_VoiceFilesRenamer/Witcher3_VoiceFilesRenamer/Program.cs:142-149 | `None` exactly when no piece from `from` on holds ':'; otherwise the first such piece. |
| VoiceLines.HexCodeIndex | Witcher3_VoiceFilesRenamer/Witcher3_VoiceFilesRenamer/Program.cs:142-152 | `None` exactly when no piece other than `c` holds "0x0"; otherwise the first such piece other than `c`. |
| VoiceLines.ParseLineNoneIff | Witcher3_VoiceFilesRenamer/Witcher3_VoiceFilesRenamer/Program.cs:142-155 | The parse gives `null` if and only if no piece holds ':' or no piece other than the first ':' piece holds "0x0". |
| VoiceLines.ParseLine | Witcher3_VoiceFilesRenamer/Witcher3_VoiceFilesRenamer/Program.cs:133-193 | Carries no contract of its own. It is the value `GetVoiceLineFromLine` computes: split at spaces, find the first ':' piece `c` and the first other "0x0" piece `h`, give `None` when either is missing, and build `Record(split, invalid, c, h)` otherwise. Its properties are `ParseLineNoneIff`, `ParsedFields` and `ParseLineFields`. |
| VoiceLines.Record | Witcher3_VoiceFilesRenamer/Witcher3_VoiceFilesRenamer/Program.cs:135-190 | Carries no contract of its own. It is the object the source fills: `HexCode` is piece `h` (line 190), `VoiceLineFileName` is `LineText` after `c` (line 188), and `Character` is `CharacterName` (line 171). `ParsedFields` and `ParseLineFields` state its properties. |
| VoiceLines.ParsedFields | Witcher3_VoiceFilesRenamer/Witcher3_VoiceFilesRenamer/Program.cs:135-192 | Given the first ':' piece `c` and the first other "0x0" piece `h`, the record is: piece `h` verbatim, the line text after `c`, and the character built from the pieces between. |
| VoiceLines.ParseLineFields | Witcher3_VoiceFilesRenamer/Witcher3_VoiceFilesRenamer/Program.cs:133-193 | A parsed line is non-empty and has at least two pieces. Its hex code is one whole piece holding "0x0", so it has no space. Its character has no ':'. When '_' is allowed in file names, its file name holds no invalid character. |
| VoiceLines.PreFilterKeepsDataLines | Witcher3_VoiceFilesRenamer/Witcher3_VoiceFilesRenamer/Program.cs:64-72 | A line that `Main` skips before parsing (empty, or fewer than two pieces) would not have parsed anyway, so the pre-filter drops no data line. |
| VoiceLines.CharacterFolderName | Witcher3_VoiceFilesRenamer/Witcher3_VoiceFilesRenamer/Program.cs:157-171 | The loop's folder name is exactly `CharacterName` of the split line and the two indices. |
| VoiceLines.CharacterName | Witcher3_VoiceFilesRenamer/Witcher3_VoiceFilesRenamer/Program.cs:157-171 | The character folder name never holds ':'. |
| VoiceLines.ColonFree | Witcher3_VoiceFilesRenamer/Witcher3_VoiceFilesRenamer/Program.cs:165-167 | Carries no contract of its own. It is one piece with its ':' removed when it holds any, and the piece itself otherwise. `CharacterStep` and `CharacterPiecesAsRemove` show that concatenating these pieces is removing ':' from the concatenation. |
| VoiceLines.CharacterPiecesAsRemove | Witcher3_VoiceFilesRenamer/Witcher3_VoiceFilesRenamer/Program.cs:159-170 | Removing ':' from each piece and concatenating equals removing ':' from the concatenation of the pieces. |
| VoiceLines.CharacterNameOfTwo | Witcher3_VoiceFilesRenamer/Witcher3_VoiceFilesRenamer/Program.cs:159-170 | With the hex code at piece 0, a non-empty, ':'-free name at piece 1 and a bare ":" separator at piece 2, the character is that name. |
| VoiceLines.LineText | Witcher3_VoiceFilesRenamer/Witcher3_VoiceFilesRenamer/Program.cs:174-188 | Carries no contract of its own. It is the value the `voiceLineFileName` loop builds: each piece after the separator contributes `Piece`, which is nothing for an empty piece and otherwise the sanitised piece plus '_' unless it is the last piece. `LineTextAsJoin`, `PiecesFollowed`, `LineTextClean` and `LineTextOfThree` state its properties. |
| VoiceLines.VoiceLineFileName | Witcher3_VoiceFilesRenamer/Witcher3_VoiceFilesRenamer/Program.cs:174-188 | The loop's file name is exactly `LineText` of the pieces after the separator. |
| VoiceLines.LineTextAsJoin | Witcher3_VoiceFilesRenamer/Witcher3_VoiceFilesRenamer/Program.cs:174-188 | The file name is the sanitised non-empty pieces joined by '_'. One extra '_' is added exactly when the line's last piece is empty and some earlier piece gave a word. |
| VoiceLines.LineTextClean | Witcher3_VoiceFilesRenamer/Witcher3_VoiceFilesRenamer/Program.cs:174-188 | When '_' is a valid file-name character, the file name holds no invalid character. |
| VoiceLines.PiecesFollowed | Witcher3_VoiceFilesRenamer/Witcher3_VoiceFilesRenamer/Program.cs:176-187 | Before the last piece of the line, every non-empty piece contributes its sanitised text followed by '_'. |
| VoiceLines.LineTextOfThree | Witcher3_VoiceFilesRenamer/Witcher3_VoiceFilesRenamer/Program.cs:174-188 | In a six-piece line whose pieces 3, 4 and 5 are clean and non-empty, the line text after piece 2 is those three pieces joined by '_'. |
| VoiceLines.ExampleLine | Witcher3_VoiceFilesRenamer/Witcher3_VoiceFilesRenamer/Program.cs:133-193 | "0x0001A2B3 GERALT : Hello there ." parses to hex code "0x0001A2B3", file name "Hello_there_." and character "GERALT". |
| FileNames.RemoveInvalidChars | Witcher3_VoiceFilesRenamer/Witcher3_VoiceFilesRenamer/Program.cs:195-208 | Replacing each listed character in turn gives the string without any listed character, with the other characters in their original order. |
| FileNames.CharSetMembers | Witcher3_VoiceFilesRenamer/Witcher3_VoiceFilesRenamer/Program.cs:198-199 | The set built from the platform's list holds exactly the listed characters. |
| FileNames.SanitiseIdempotent | Witcher3_VoiceFilesRenamer/Witcher3_VoiceFilesRenamer/Program.cs:195-208 | Sanitising an already sanitised name changes nothing. |
| Text.Contains | Witcher3_VoiceFilesRenamer/Witcher3_VoiceFilesRenamer/Program.cs:150 | Carries no contract of its own. It is `String.Contains(string)`: the substring occurs at some index. `IsHexCodeIndex` and `ParseLineFields` state the hex test with it. |
| Text.Remove | Witcher3_VoiceFilesRenamer/Witcher3_VoiceFilesRenamer/Program.cs:203 | Removing characters never makes a string longer. |
| Text.RemoveClean | Witcher3_VoiceFilesRenamer/Witcher3_VoiceFilesRenamer/Program.cs:203 | No removed character is left in the result. |
| Text.RemoveKeepsOthers | Witcher3_VoiceFilesRenamer/Witcher3_VoiceFilesRenamer/Program.cs:203 | Every character outside the removed set keeps its number of occurrences. |
| Text.RemoveUnchangedIff | Witcher3_VoiceFilesRenamer/Witcher3_VoiceFilesRenamer/Program.cs:201-204 | Removal leaves a string unchanged if and only if the string holds none of the characters. So the `Contains` guard before each `Replace` changes nothing. |
| Text.RemoveTwice | Witcher3_VoiceFilesRenamer/Witcher3_VoiceFilesRenamer/Program.cs:199-205 | Removing one set and then another equals removing their union. |
| Text.RemoveAppend | Witcher3_VoiceFilesRenamer/Witcher3_VoiceFilesRenamer/Program.cs:167 | Removal distributes over concatenation. |
| Text.Split | Witcher3_VoiceFilesRenamer/Witcher3_VoiceFilesRenamer/Program.cs:136 | Splitting always gives at least one piece. |
| Text.SplitProperties | Witcher3_VoiceFilesRenamer/Witcher3_VoiceFilesRenamer/Program.cs:136 | `k` spaces give `k + 1` pieces. No piece holds a space. Joining the pieces with spaces gives the line back. |
| Text.SplitJoin | Witcher3_VoiceFilesRenamer/Witcher3_VoiceFilesRenamer/Program.cs:136 | Splitting the space-join of space-free pieces gives those pieces back. |
| Text.JoinSuffixed | Witcher3_VoiceFilesRenamer/Witcher3_VoiceFilesRenamer/Program.cs:181-186 | Joining with '_' is appending '_' after every part but the last. |
| FilePaths.Combine | Witcher3_VoiceFilesRenamer/Witcher3_VoiceFilesRenamer/Program.cs:219 | The combined path is as long as the two parts together, or one character longer for the added separator. An empty name gives the directory unchanged, as `Path.Combine` does. |
| FilePaths.CombineKeepsParts | Witcher3_VoiceFilesRenamer/Witcher3_VoiceFilesRenamer/Program.cs:219 | The combined path starts with the directory and ends with the name. |
| FilePaths.Insert | Witcher3_VoiceFilesRenamer/Witcher3_VoiceFilesRenamer/Program.cs:237-242 | Carries no contract of its own. It is `String.Insert(at, t)`: the text before `at`, then `t`, then the rest. `KeptInsert` proves that inserting the next character at position `i` grows the shortened name by one place. |
| FilePaths.Kept | Witcher3_VoiceFilesRenamer/Witcher3_VoiceFilesRenamer/Program.cs:230-248 | The first `count` characters the loop inserts, exactly `count` of them: the name's own character at each position below `room - 2`, a '.' from there on. `KeptShape` gives each position and `KeptInsert` shows one loop step extends it by one. |
| FilePaths.ShortenedName | Witcher3_VoiceFilesRenamer/Witcher3_VoiceFilesRenamer/Program.cs:223-248 | Carries no contract of its own. It is the final value of `cutDownName`: the first `min(name length, max(0, room))` inserted characters, then the extension. Its properties are `ShortenedNameShape`, `ShortenedPathFits`, `ShortenedWithEllipsis` and `ShortenedToExtension`. |
| FilePaths.MakeFilePathLegal | Witcher3_VoiceFilesRenamer/Witcher3_VoiceFilesRenamer/Program.cs:217-252 | A path already shorter than 248 gives back the bare file name. Otherwise the result is the directory combined with `ShortenedName`. |
| FilePaths.ShortenedNameShape | Witcher3_VoiceFilesRenamer/Witcher3_VoiceFilesRenamer/Program.cs:223-248 | The shortened name is `min(name length, max(0, room))` inserted characters followed by the whole extension. The inserted characters are the name's own before position `room - 2` and dots after it. |
| FilePaths.ShortenedPathFits | Witcher3_VoiceFilesRenamer/Witcher3_VoiceFilesRenamer/Program.cs:223-251 | With a non-empty extension and a directory and extension shorter than 248 together, the shortened path is at most 248 characters. |
| FilePaths.ShortenedPathOverflows | Witcher3_VoiceFilesRenamer/Witcher3_VoiceFilesRenamer/Program.cs:223-251 | With a non-empty extension and a directory and extension of 248 or more together, the shortened path is the directory, the extension and the separator `Combine` adds, so it is at least 248 characters and over 248 whenever a separator is added. |
| FilePaths.ShortenedWithEllipsis | Witcher3_VoiceFilesRenamer/Witcher3_VoiceFilesRenamer/Program.cs:230-248 | When the path does not fit, the extension is non-empty and the room is at least 2, the name is cut to `room - 2` characters, then "..", then the extension. |
| FilePaths.ShortenedPathOverflowsWithoutExtension | Witcher3_VoiceFilesRenamer/Witcher3_VoiceFilesRenamer/Program.cs:223-251 | With an empty extension, a directory shorter than 248 without a trailing separator, and a name at least as long as the room, the shortened path is 249 characters, one over the limit. |
| FilePaths.ShortenedToExtension | Witcher3_VoiceFilesRenamer/Witcher3_VoiceFilesRenamer/Program.cs:227-248 | When the directory and the extension leave no room, the shortened name is the extension alone. |
| FilePaths.ExtensionSuffix | Witcher3_VoiceFilesRenamer/Witcher3_VoiceFilesRenamer/Program.cs:264-280 | Carries no contract of its own. It is the scan's value: the path from its first '.' on, or `None` without a '.'. `ExtensionSuffixSpec` and `ExtensionSuffixOf` characterise it in both directions. |
| FilePaths.GetExtensionFromPathWithout | Witcher3_VoiceFilesRenamer/Witcher3_VoiceFilesRenamer/Program.cs:264-280 | The two loops give exactly `ExtensionSuffix` of the listed path: everything from its first '.', or `None` when it has no '.'. |
| FilePaths.ExtensionSuffixSpec | Witcher3_VoiceFilesRenamer/Witcher3_VoiceFilesRenamer/Program.cs:264-280 | There is an extension if and only if the path holds a '.'. It is then a suffix of the path that starts with '.', with no '.' before it. |
| FilePaths.ExtensionSuffixOf | Witcher3_VoiceFilesRenamer/Witcher3_VoiceFilesRenamer/Program.cs:264-280 | A '.'-free head followed by a tail starting with '.' has that tail as its extension. |
| FilePaths.ExtensionOfHexFile | Witcher3_VoiceFilesRenamer/Witcher3_VoiceFilesRenamer/Program.cs:80-81 | When neither the folder nor the hex code holds a '.', the scan gives the file's own extension, so the rebuilt source path names the listed file. |
| FilePaths.ExtensionSuffixTakesFolderDot | Witcher3_VoiceFilesRenamer/Witcher3_VoiceFilesRenamer/Program.cs:264-273 | The scan as written: a '.' in the folder starts the "extension", which is then not the file's own extension. |
| FilePaths.FileNameOf | Witcher3_VoiceFilesRenamer/Witcher3_VoiceFilesRenamer/Program.cs:262-265 | The file-name part of a folder, '\' and a separator-free name is that name. |
| FilePaths.FileExtensionOfHexFile | Witcher3_VoiceFilesRenamer/Witcher3_VoiceFilesRenamer/Program.cs:264-280 | The corrected scan, over the file name only, gives the file's own extension whatever the folder holds. |
| FilePaths.DottedFolderExample | Witcher3_VoiceFilesRenamer/Witcher3_VoiceFilesRenamer/Program.cs:264-280 | On "C:\v1.0\0x0001.wem" the scan as written gives ".0\0x0001.wem"; the corrected scan gives ".wem". |

## Left out

- `Main` (lines 40-125) is not modelled: argument checks, console output, directory creation, `File.Exists` and `File.Move`, and the list `CreatedData`. They are I/O. Only its pre-filter appears, as `PreFilterKeepsDataLines`.
- `VoiceLineData` is an immutable datatype rather than a class with setters. The source fills the object once before returning it and never changes it afterwards.
- `Path.GetInvalidFileNameChars()` is a parameter `invalidChars`, in the platform's order. The platform's actual list is not part of this model.
- `GetExtensionFromPathWithout` takes the first listed path as its parameter `first`. `Directory.GetFiles` and `First()` are I/O, and the source's two parameters are unused apart from the listing. An empty listing, where `First()` throws, is not modelled.
- `GetExtensionFromPathWithout`: when the path has no '.', the source indexes position -1 and throws. The model returns `None` instead.
- `Combine` models `Path.Combine` only for a second part that is not rooted, which is how `MakeFilePathLegal` calls it. An empty second part gives the first part unchanged, and an empty first part gives the second part. The rooted case, where .NET drops the first part, is not modelled. On .NET Framework `Path.Combine` also throws `ArgumentException` for characters that are invalid in paths, such as '|' or control characters; the model returns a path instead. The file name `Main` passes is sanitised first, and a character folder holding such a character already makes `Directory.CreateDirectory` (lines 84-86) throw before `MakeFilePathLegal` is called.
- `string.IsNullOrEmpty` is modelled as a length test, because a piece of `Split` is never `null`.
- Strings are `seq<char>`, and characters are only compared for equality, as the source's ordinal `Contains` and `Replace` do. A .NET `char` is a UTF-16 code unit, while a Dafny `char` is a Unicode scalar value. So the model counts a character outside the Basic Multilingual Plane as one, where .NET's `Length` counts it as two. On such text the source's `< 248` test (line 220), `Room` and the cut position (lines 232-242) differ from the model's. The source's `fileName[i]` can also insert one half of a surrogate pair at the cut, which the model cannot express.
- `ShortenedPathFits` is weaker than "the result always fits": it needs a non-empty extension and a directory and extension shorter than 248 together. From 248 on, the source's result is the directory and the extension alone, which exceeds 248 characters whenever `Combine` adds a separator (`ShortenedPathOverflows`). With an empty extension the path can reach 249 characters, because the added separator is not counted (`ShortenedPathOverflowsWithoutExtension`).
- `MakeFilePathLegal`: the early exit returns the bare file name, not a path. `Main` calls it only when the full path exceeds 248, so that branch is not reached from `Main`. The model follows the source.

## Findings

| source | as written | input that shows it | evidently intended | confidence | as-written member | corrected member |
|---|---|---|---|---|---|---|
| Witcher3_VoiceFilesRenamer/Witcher3_VoiceFilesRenamer/Program.cs:264-280 | The first-'.' scan runs over the whole listed path, including its folder | listed file "C:\v1.0\0x0001.wem" gives ".0\0x0001.wem" instead of ".wem" | the extension is taken from the file name, after the last '\' | not executed | FilePaths.ExtensionSuffixTakesFolderDot | FilePaths.FileExtensionOfHexFile |
