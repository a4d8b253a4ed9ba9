# f-sgallery in Dafny

This project models the core of f-sgallery, a PHP package that serves a gallery straight from a folder tree.

- Every folder below the gallery's base directory is an **album**.
- The folder's name gives the album's title. A leading `_` marks the album archived, and a trailing `_s` marks it sticky.
- The files in a folder are the album's **content**. A file's name gives its order, title, thumbnail marker and extension.
- Every album keeps a hidden **sidecar** file, `.meta.info`, holding a generated id and a creation time.
- The **gallery** walks the tree and builds an index from album ids to album paths. It uses that index to find an album by its id.

The model has one module per part of the source:

| module | models |
|---|---|
| `Wrappers` | `Option`, the stand-in for PHP's `null` and `false` results |
| `FilePaths` | `FilePath`: splitting and joining paths, and converting slashes |
| `Storage` | The disk: a directory tree, the configuration, the sidecar files, the index file and the clock behind `uniqid` |
| `FolderNames` | The folder-name grammar of `Album::_parseFolderName` |
| `FileNames` | The pure part of `File`: `_parseFilename`, `type`, `getContainingDirectory` |
| `MetaFiles` | The `MetaFile` class: loading, generating and saving the sidecar |
| `AlbumSpecs` | The reference functions: an album's content table, and the walk and leaves of the album tree |
| `Albums` | The `Album` class, with its cached sub-albums, content table, id and creation time |
| `Files` | The `File` class: name and URL memoised, thumbnail lookup, the archived test up the tree |
| `Galleries` | The `Gallery` class: building the index, finding albums by path and by id |
| `Fixtures` | The test tree `foo` of the repository's tests, and the counts the tests expect of it |
| `FileFixtures` | The file names, paths, URLs and parent folder the tests check, and the pieces of album `bar`'s content table |

Classes model objects whose fields the source updates in place:

- `Album`: the sub-album cache, the content cache, the id and the creation time.
- `File`: the memoised name and URL.
- `MetaFile`: the loaded id and creation time.
- `Gallery`: the index and the parent folder.
- `Disk`: the sidecar files, the index file and the clock.

The parsers, path functions and tree walks are pure functions. The methods are proved against them.

The filesystem is a value:

- `Dir` holds a name, the file names and the sub-directories, in listing order.
- Sidecar files are a map from path to record.
- The index file is an optional map.
- `uniqid()` is the hexadecimal spelling of a clock that only moves forward.
- The directory modification time is a function parameter.

## Model

| member | source | states |
|---|---|---|
| FilePaths.IndexOf | src/BrokunMusheen/FSGallery/FilePath.php:22-25 | the first position of the character, or the length when there is none: no earlier occurrence, and the character is at the position |
| FilePaths.LastIndexOf | src/BrokunMusheen/FSGallery/File.php:311-341 | `strrpos`: none exactly when the character is absent; otherwise a position holding it with none after |
| FilePaths.Split | src/BrokunMusheen/FSGallery/FilePath.php:22-25 | `explode` gives at least one piece, and no piece holds the delimiter |
| FilePaths.LastSegment | src/BrokunMusheen/FSGallery/File.php:128-138 | the last segment of a path holds no delimiter |
| FilePaths.ReplaceChar | src/BrokunMusheen/FSGallery/FilePath.php:38-46 | the same length; each `from` becomes `to`; every other character stays |
| FilePaths.WindowsToUnix | src/BrokunMusheen/FSGallery/FilePath.php:38-41 | the result has no backslash |
| FilePaths.UnixToWindows | src/BrokunMusheen/FSGallery/FilePath.php:43-46 | the result has no slash |
| FilePaths.JoinSplit | src/BrokunMusheen/FSGallery/FilePath.php:12-25 | joining the pieces of a string gives the string back |
| FilePaths.SplitJoin | src/BrokunMusheen/FSGallery/FilePath.php:12-25 | splitting the join of non-empty delimiter-free segments gives them back |
| FilePaths.SplitAppend | src/BrokunMusheen/FSGallery/FilePath.php:22-25 | splitting `a`, a delimiter and `b` gives the pieces of `a` followed by those of `b` |
| FilePaths.JoinAppend | src/BrokunMusheen/FSGallery/FilePath.php:12-20 | joining two non-empty segment lists in a row puts one delimiter between their joins |
| FilePaths.ArrayToString | src/BrokunMusheen/FSGallery/FilePath.php:12-20 | `arrayToString` with a base directory starts with the base; its inverse is stated by `StringToArrayOfArrayToString` and `ArrayToStringOfStringToArray` |
| FilePaths.StringToArray | src/BrokunMusheen/FSGallery/FilePath.php:22-25 | `stringToArray` gives at least one segment, and no segment holds the delimiter |
| FilePaths.JoinPathSegments | src/BrokunMusheen/FSGallery/FilePath.php:33-36 | the segments of `join(parent, relative)` are the parent's segments followed by the relative path's |
| FilePaths.StringToArrayOfArrayToString | src/BrokunMusheen/FSGallery/FilePath.php:12-25 | `stringToArray(arrayToString(xs)) == xs` for delimiter-free segments |
| FilePaths.ArrayToStringOfStringToArray | src/BrokunMusheen/FSGallery/FilePath.php:12-25 | `arrayToString(stringToArray(s)) == s` for every string |
| FilePaths.ArrayToStringUnderBase | src/BrokunMusheen/FSGallery/FilePath.php:12-20 | with a base directory the joined segments follow the base and a delimiter; with no segments the result is the base |
| FilePaths.SplitUnderBase | src/BrokunMusheen/FSGallery/FilePath.php:12-25 | the segments of a path under a base are the base's segments followed by the path's |
| FilePaths.ReplaceBack | src/BrokunMusheen/FSGallery/FilePath.php:38-46 | replacing one character by another and back restores a string that lacked the second |
| FilePaths.WindowsToUnixIdempotent | src/BrokunMusheen/FSGallery/FilePath.php:38-41 | converting to slashes twice is converting once |
| FilePaths.UnixToWindowsIdempotent | src/BrokunMusheen/FSGallery/FilePath.php:43-46 | converting to backslashes twice is converting once |
| FilePaths.UnixPathRoundTrip | src/BrokunMusheen/FSGallery/FilePath.php:38-46 | on a path without backslashes, to backslashes and back is the identity |
| FilePaths.WindowsPathRoundTrip | src/BrokunMusheen/FSGallery/FilePath.php:38-46 | on a path without slashes, to slashes and back is the identity |
| Storage.Child | src/BrokunMusheen/FSGallery/Album.php:573-586 | the sub-directory found has the name asked for; none means no sub-directory has it |
| Storage.ResolvePathOf | src/BrokunMusheen/FSGallery/Gallery.php:117-129 | the path of a position below the base directory resolves back to that position |
| Storage.PathOfResolve | src/BrokunMusheen/FSGallery/Gallery.php:117-129 | a path that resolves is the path of the position it resolves to |
| Storage.PathOfChild | src/BrokunMusheen/FSGallery/Album.php:573-586 | a sub-directory's path is its name joined under its parent's path |
| Storage.PathOfIsBase | src/BrokunMusheen/FSGallery/Album.php:388-409 | only the root position has the base directory as its path |
| Storage.ParentPath | src/BrokunMusheen/FSGallery/Album.php:388-409 | dropping the last segment of an album's path gives its parent's path |
| Storage.LastSegmentOfPath | src/BrokunMusheen/FSGallery/Album.php:614-617 | the last segment of an album's path is its folder's name |
| Storage.LookupPrefix | src/BrokunMusheen/FSGallery/Album.php:388-409 | every prefix of an existing position exists |
| Storage.LookupChild | src/BrokunMusheen/FSGallery/Album.php:573-586 | each sub-directory of an existing directory is found one segment below it |
| Storage.ChildUnique | src/BrokunMusheen/FSGallery/Album.php:573-586 | among siblings with distinct names, a name finds its own directory |
| Storage.HexRoundTrip | src/BrokunMusheen/FSGallery/MetaFile.php:141-144 | reading back the hexadecimal spelling of a number gives the number |
| Storage.UniqIdInjective | src/BrokunMusheen/FSGallery/MetaFile.php:141-144 | different clock readings give different ids |
| Storage.Disk.NewId | src/BrokunMusheen/FSGallery/MetaFile.php:141-144 | the id is the spelling of the clock reading, and the clock moves on by one |
| FolderNames.MatchStart | src/BrokunMusheen/FSGallery/Album.php:588-608 | the leftmost position where the folder-name expression can match, with no earlier one; none when no title character exists |
| FolderNames.TitleEnd | src/BrokunMusheen/FSGallery/Album.php:588-608 | the maximal run of title characters `[^_\r\n]` |
| FolderNames.ParseFolderName | src/BrokunMusheen/FSGallery/Album.php:588-608 | the parse fails exactly when the name has no title character |
| FolderNames.ParseFolderNameShape | src/BrokunMusheen/FSGallery/Album.php:588-608 | a successful parse describes the name from the leftmost match: the archived flag is a leading `_`, the title is a maximal run, and sticky is a following `_s` |
| FolderNames.ParseFormatFolderName | src/BrokunMusheen/FSGallery/Album.php:588-608 | formatting any attributes with a proper title as a folder name and parsing it gives them back |
| FileNames.DigitRunEnd | src/BrokunMusheen/FSGallery/File.php:279-301 | the maximal run of digits (the `\d*` group) |
| FileNames.TitleRunEnd | src/BrokunMusheen/FSGallery/File.php:279-301 | the maximal run of characters other than `_` (the `[^_]*` group) |
| FileNames.MatchFilename | src/BrokunMusheen/FSGallery/File.php:279-301 | the match exists exactly when the name has a dot; the groups spell the name and each greedy group takes all it can |
| FileNames.CutsOf | src/BrokunMusheen/FSGallery/File.php:279-301 | the group boundaries of the match: an optional `_`, maximal digits, an optional `_`, the title to the next `_` or the last dot, then the marker |
| FileNames.GroupsShaped | src/BrokunMusheen/FSGallery/File.php:279-301 | each group holds only what its part of the expression admits |
| FileNames.GroupsGreedy | src/BrokunMusheen/FSGallery/File.php:279-301 | the groups are greedy: underscore when there is one, all digits, the separator, and an extension without dots |
| FileNames.ParseFilename | src/BrokunMusheen/FSGallery/File.php:279-301 | the name parses exactly when it has a dot; archived exactly when it starts with `_`; the title has no `_` |
| FileNames.ParseFormatFilename | src/BrokunMusheen/FSGallery/File.php:279-301 | a file name spelled from a digit order, a title without `_` or dot, the thumbnail marker and an extension parses back to exactly those attributes |
| FileNames.Extension | src/BrokunMusheen/FSGallery/File.php:311-341 | the text after the last dot holds no dot |
| FileNames.ContainingDirectory | src/BrokunMusheen/FSGallery/File.php:350-355 | the directory and the last segment join back into the path; '' when there is no delimiter |
| FileNames.ContainingDirectoryOfJoin | src/BrokunMusheen/FSGallery/File.php:350-355 | the directory of a file placed under `dir` is `dir` |
| FileNames.TypeDependsOnNameOnly | src/BrokunMusheen/FSGallery/File.php:311-341 | `type` of a path agrees with the classification of its file name alone |
| FileNames.ExtensionInName | src/BrokunMusheen/FSGallery/File.php:311-341 | when the name has a dot, the path's extension is the name's |
| FileNames.ExtensionNotInName | src/BrokunMusheen/FSGallery/File.php:311-341 | when the name has no dot, the path's extension names no kind |
| FileNames.MediaNamesParse | src/BrokunMusheen/FSGallery/File.php:203-224 | a file `type` calls a picture or a video has a dot in its name, so its name parses |
| MetaFiles.MetaFile.constructor | src/BrokunMusheen/FSGallery/File.php:47-67 | `MetaFile` has no constructor of its own and inherits this one from `File`: a sidecar object on its path with nothing loaded; `File`'s `Finder` lookup and name parsing are skipped, because the sidecar's name is fixed and `getName` is overridden |
| MetaFiles.MetaFile.GetName | src/BrokunMusheen/FSGallery/MetaFile.php:37-40 | always `.meta.info`, whatever the path: a single segment that `type` classifies as the sidecar |
| MetaFiles.MetaFile.GetId | src/BrokunMusheen/FSGallery/MetaFile.php:63-66 | the id the object holds, read without touching the sidecar; after a load that found the sidecar, or after a save, it is the id the sidecar records |
| MetaFiles.MetaFile.GetTitle | src/BrokunMusheen/FSGallery/MetaFile.php:49-52 | always `Album Meta Info`, whatever the path |
| MetaFiles.MetaFile.Generate | src/BrokunMusheen/FSGallery/MetaFile.php:89-94 | a fresh id from the clock, and the directory's modification time as the creation time |
| MetaFiles.MetaFile.LoadFile | src/BrokunMusheen/FSGallery/MetaFile.php:101-114 | true exactly when the sidecar exists; then both fields are copied from it, so the object and its sidecar agree; otherwise nothing changes |
| MetaFiles.MetaFile.Save | src/BrokunMusheen/FSGallery/MetaFile.php:121-134 | generates only when no id is set, writes exactly the object's fields, so the object and its sidecar agree, and the stored id is never null |
| MetaFiles.MetaFile.GetCreatedAt | src/BrokunMusheen/FSGallery/MetaFile.php:73-82 | a set creation time is returned without writing; an unset one becomes the modification time and the sidecar is saved |
| MetaFiles.MetaInfoStepStores | src/BrokunMusheen/FSGallery/Album.php:293-318 | after loading, the stored record has a creation time equal to the cached one; the cached id is the stored one unless the sidecar had neither field; only then, or with no sidecar, is the clock used |
| MetaFiles.MetaNameMatchesPath | src/BrokunMusheen/FSGallery/MetaFile.php:37-40 | the reported sidecar name is the last segment of the sidecar's path, and `type` classifies that path as the sidecar |
| AlbumSpecs.ReservedNames | src/BrokunMusheen/FSGallery/Gallery.php:217-223 | the reserved names are the sidecar name and the header image name |
| AlbumSpecs.ListedName | src/BrokunMusheen/FSGallery/Album.php:509-552 | the name read off a listed file's path is the listed name |
| AlbumSpecs.ClassifyKeeps | src/BrokunMusheen/FSGallery/Album.php:519-549 | a kept file has the listed path and an unreserved name, and is a picture or a video when the sidecar name is reserved |
| AlbumSpecs.Find | src/BrokunMusheen/FSGallery/Album.php:509-552 | the index of the slot with the key, or none when no slot has it |
| AlbumSpecs.FirstKeys | src/BrokunMusheen/FSGallery/Album.php:509-552 | the titles in order of first occurrence, each once |
| AlbumSpecs.FoldIsExpected | src/BrokunMusheen/FSGallery/Album.php:509-552 | the table built file by file is one slot per title in order of first occurrence, holding the last thumbnail and the last original of that title |
| AlbumSpecs.ContentOfStep | src/BrokunMusheen/FSGallery/Album.php:509-552 | the content table of a listing with one more file is the table before it with that file put in, or unchanged when the file is skipped |
| AlbumSpecs.WalkDistinct | src/BrokunMusheen/FSGallery/Album.php:424-435 | the walk never visits a position twice |
| AlbumSpecs.PutKnownKey | src/BrokunMusheen/FSGallery/Album.php:535-548 | a file whose title has a slot fills that slot |
| AlbumSpecs.PutNewKey | src/BrokunMusheen/FSGallery/Album.php:535-548 | a file with a new title opens a new slot at the end |
| AlbumSpecs.Originals | src/BrokunMusheen/FSGallery/Album.php:210-219 | the originals are exactly those the slots hold |
| AlbumSpecs.GetFilesReference | src/BrokunMusheen/FSGallery/Album.php:210-219 | a file is among `getFiles` exactly when it is the last original listed under some title |
| AlbumSpecs.GetFilesAreMedia | src/BrokunMusheen/FSGallery/Album.php:210-219 | every file `getFiles` gives is a picture or a video from the listing, with an unreserved name |
| AlbumSpecs.UnarchivedDirs | src/BrokunMusheen/FSGallery/Album.php:184-202 | exactly the sub-directories whose names do not parse as archived |
| AlbumSpecs.Kids | src/BrokunMusheen/FSGallery/Album.php:184-202 | the sub-albums `albums` visits are sub-directories |
| AlbumSpecs.WalkExists | src/BrokunMusheen/FSGallery/Album.php:424-435 | the walk visits only existing albums below its start |
| AlbumSpecs.WalkComplete | src/BrokunMusheen/FSGallery/Album.php:424-435 | with archived albums included, the walk visits every existing album below its start |
| AlbumSpecs.LeavesAreLeaves | src/BrokunMusheen/FSGallery/Album.php:331-348 | the leaves are existing albums without sub-directories, each visited by the walk too |
| Albums.Reverse | src/BrokunMusheen/FSGallery/Album.php:365-381 | `array_reverse` keeps the length |
| Albums.ReverseReverse | src/BrokunMusheen/FSGallery/Album.php:365-381 | reversing twice gives the sequence back |
| Albums.Unarchived | src/BrokunMusheen/FSGallery/Album.php:184-202 | the filtered albums are unarchived albums of the input |
| Albums.Album.constructor | src/BrokunMusheen/FSGallery/Album.php:80-99 | an album on an existing directory, at the position its path resolves to, with nothing loaded |
| Albums.Album.AttributesFromName | src/BrokunMusheen/FSGallery/Album.php:80-99 | the album's name is its folder's name; it is archived exactly when that name parses as archived; its title and sticky flag are those the parse gives, the title null exactly when the name does not parse |
| Albums.Album.GetDirectory | src/BrokunMusheen/FSGallery/Album.php:107-110 | the directory is the path of the album's position below the base directory, and its last segment is the album's name |
| Albums.Album.GetName | src/BrokunMusheen/FSGallery/Album.php:171-174 | a single path segment; when it does not parse as a folder name, the title is null and the album is neither archived nor sticky |
| Albums.Album.GetTitle | src/BrokunMusheen/FSGallery/Album.php:411-414 | null exactly when the name has no title character; otherwise a non-empty run of title characters |
| Albums.Album.IsArchived | src/BrokunMusheen/FSGallery/Album.php:270-273 | an archived album's name has a `_` right before a title character |
| Albums.Album.IsSticky | src/BrokunMusheen/FSGallery/Album.php:282-285 | a sticky album's name has `_s` right after a title character |
| Albums.Album.LoadSubAlbums | src/BrokunMusheen/FSGallery/Album.php:573-586 | one new album per sub-directory, in listing order, none with an id, creation time or files loaded, and the tree stays valid |
| Albums.Album.Albums | src/BrokunMusheen/FSGallery/Album.php:184-202 | the cached sub-albums, loaded once, all or only the unarchived ones, each on the matching sub-directory |
| Albums.Album.UnarchivedMirrors | src/BrokunMusheen/FSGallery/Album.php:184-202 | filtering the album objects filters their directories the same way |
| Albums.Album.HasSubAlbums | src/BrokunMusheen/FSGallery/Album.php:446-449 | true exactly when the album has a sub-directory `albums` would give |
| Albums.Album.AlbumWalk | src/BrokunMusheen/FSGallery/Album.php:424-435 | returns the albums the callback is called on, in call order: their positions are the reference walk (this album, then the walk of each sub-album `albums` gives); the albums it creates have no id, creation time or files loaded, and the ids, creation times and file tables of the albums that existed before are unchanged |
| Albums.Album.GetLeaves | src/BrokunMusheen/FSGallery/Album.php:331-348 | the albums at the positions of the reference leaves, in order; the albums it creates have no id, creation time or files loaded, and the ids, creation times and file tables of the albums that existed before are unchanged |
| Albums.Album.GetParent | src/BrokunMusheen/FSGallery/Album.php:388-409 | none exactly for the root; otherwise a new album one level up, on the directory path without its last segment |
| Albums.Album.GetPath | src/BrokunMusheen/FSGallery/Album.php:365-381 | climbing to the root and reversing the names gives the album's segments joined; '' for the root |
| Albums.Album.GetRealPath | src/BrokunMusheen/FSGallery/Album.php:355-358 | the album's path below the base directory |
| Albums.Album.GetMetaFilePath | src/BrokunMusheen/FSGallery/Album.php:624-627 | the sidecar name under the album's real path |
| Albums.Album.GetMetaInfo | src/BrokunMusheen/FSGallery/Album.php:293-309 | the sidecar object: loaded when the file exists, otherwise saved with a fresh id |
| Albums.Album.LoadMetaInfo | src/BrokunMusheen/FSGallery/Album.php:311-318 | the cached id and creation time, and the new sidecar store and clock, are those of the reference step |
| Albums.Album.GetId | src/BrokunMusheen/FSGallery/Album.php:128-136 | a cached id is returned with nothing changed; otherwise the one the sidecar gives once loaded |
| Albums.Album.GetCreatedAt | src/BrokunMusheen/FSGallery/Album.php:138-146 | a cached creation time is returned with nothing changed; otherwise the one the sidecar gives once loaded |
| Albums.Album.UnsetId | src/BrokunMusheen/FSGallery/Album.php:634-640 | the sidecar is deleted and both cached values are forgotten |
| Albums.Album.LoadContent | src/BrokunMusheen/FSGallery/Album.php:509-552 | the loop builds the reference content table of the directory's listing |
| Albums.Album.GetContent | src/BrokunMusheen/FSGallery/Album.php:233-241 | the content table, loaded once and then cached |
| Albums.Album.GetFiles | src/BrokunMusheen/FSGallery/Album.php:210-219 | the originals of the content table, in order |
| Albums.Album.HasContent | src/BrokunMusheen/FSGallery/Album.php:457-465 | true exactly when `getFiles` is not empty |
| Albums.Album.HasImagery | src/BrokunMusheen/FSGallery/Album.php:472-484 | true exactly when some file of `getFiles` is a picture |
| Albums.Album.HasVideo | src/BrokunMusheen/FSGallery/Album.php:491-502 | true exactly when some file of `getFiles` is a video |
| Albums.AnyOfKind | src/BrokunMusheen/FSGallery/Album.php:472-502 | the loop answers true exactly when some object is of the kind |
| Albums.AddListedFile | src/BrokunMusheen/FSGallery/Album.php:519-549 | one turn of the loop puts the classified file into the table as the reference step does |
| Albums.ParentExists | src/BrokunMusheen/FSGallery/Album.php:388-409 | the directory path without its last segment names the parent position, which exists |
| Files.RemoveAll | src/BrokunMusheen/FSGallery/File.php:104-121 | `str_replace` with an empty replacement never lengthens the string |
| Files.Relative | src/BrokunMusheen/FSGallery/File.php:104-121 | a path under the base directory is the base followed by the result; any other path is unchanged |
| Files.RemoveOnlyPrefix | src/BrokunMusheen/FSGallery/File.php:104-121 | when the base directory occurs only as the prefix, removing every copy removes the prefix |
| Files.UrlOf | src/BrokunMusheen/FSGallery/File.php:104-121 | the corrected URL has no backslash |
| Files.UrlAsWrittenAgrees | src/BrokunMusheen/FSGallery/File.php:104-121 | as written and corrected agree when the base occurs only as the prefix; the URL is the root URL and the relative path, with slashes |
| Files.UrlAsWrittenCutsInside | src/BrokunMusheen/FSGallery/File.php:104-121 | as written, a base directory that recurs inside the path is cut out there too, so the URL differs from the corrected one |
| Files.UrlAsWrittenCutsWeb | src/BrokunMusheen/FSGallery/File.php:104-121 | with base `/web`, the file `/web/a/web/b.jpg` gets a different URL as written and corrected |
| Files.ThumbnailOf | src/BrokunMusheen/FSGallery/File.php:145-150 | the thumbnail found is the one in the slot under the title; none when no slot has the title |
| Files.ThumbnailAsWrittenAgrees | src/BrokunMusheen/FSGallery/File.php:145-150 | when no title has a dot, `array_get` finds exactly the corrected thumbnail |
| Files.ThumbnailAsWrittenMissesDottedTitle | src/BrokunMusheen/FSGallery/File.php:145-150 | as written, a title with a dot is split by `array_get`, and no thumbnail is found |
| Files.ThumbnailAsWrittenMissesMyPhoto | src/BrokunMusheen/FSGallery/File.php:145-150 | the slot `my.photo` holds a thumbnail that `array_get` misses |
| Files.ParsesMyPhoto | src/BrokunMusheen/FSGallery/File.php:279-301 | `my.photo.jpg` parses with title `my.photo`, so such titles occur |
| Files.File.constructor | src/BrokunMusheen/FSGallery/File.php:47-67 | the name is parsed and memoised; the URL is not yet computed |
| Files.File.GetExtension | src/BrokunMusheen/FSGallery/File.php:74-77 | null exactly when the name did not parse |
| Files.File.GetOrder | src/BrokunMusheen/FSGallery/File.php:84-87 | null exactly when the name did not parse, which is exactly when the file name has no dot |
| Files.File.GetTitle | src/BrokunMusheen/FSGallery/File.php:157-160 | null exactly when the file name has no dot; a title holds no `_` |
| Files.File.GetPath | src/BrokunMusheen/FSGallery/File.php:94-97 | the path whose last segment the memoised attributes were parsed from |
| Files.File.IsThumbnailFile | src/BrokunMusheen/FSGallery/File.php:193-196 | true only when the name parsed with the thumbnail marker, so only for names with a dot |
| Files.File.GetName | src/BrokunMusheen/FSGallery/File.php:128-138 | the last segment of the path, memoised |
| Files.File.GetUrl | src/BrokunMusheen/FSGallery/File.php:104-121 | the corrected URL, memoised, without backslashes |
| Files.File.GetThumbnail | src/BrokunMusheen/FSGallery/File.php:145-150 | the corrected thumbnail lookup in the album's content table |
| Files.File.IsArchived | src/BrokunMusheen/FSGallery/File.php:167-186 | true exactly when the file's own name or an album name on the way up to the base is archived |
| Galleries.Proper | src/BrokunMusheen/FSGallery/Gallery.php:82-100 | the positions the callback indexes are walk positions other than the root's |
| Galleries.ProperDropsRoot | src/BrokunMusheen/FSGallery/Gallery.php:82-100 | of a walk from the root, only the first position is dropped |
| Galleries.EntryAdded | src/BrokunMusheen/FSGallery/Gallery.php:82-100 | a new key with an album's path extends the index by exactly one entry |
| Galleries.IndexedPathExists | src/BrokunMusheen/FSGallery/Gallery.php:137-161 | an index path, read back under the base directory, is an existing directory |
| Galleries.EntriesExist | src/BrokunMusheen/FSGallery/Gallery.php:76-108 | every path of a built index leads back to an existing directory |
| Galleries.GetAlbumFindsPosition | src/BrokunMusheen/FSGallery/Gallery.php:117-129 | a position of proper names exists on disk exactly when its directory does |
| Galleries.ParentOfSpellsBase | src/BrokunMusheen/FSGallery/Gallery.php:168-182 | the parent folder, a delimiter and the base's last segment spell the base; '' when the base has no delimiter |
| Galleries.KeptOrFreshStep | src/BrokunMusheen/FSGallery/Gallery.php:87-96 | after one more album the rule of the duplicate check still holds for every album: an id no earlier album took is kept, a taken one is replaced by a fresh clock id |
| Galleries.Gallery.NotYetIndexed | src/BrokunMusheen/FSGallery/Gallery.php:82-100 | an album reached by a walk without repeats is not yet indexed |
| Galleries.Gallery.InWalkedStep | src/BrokunMusheen/FSGallery/Gallery.php:82-100 | the indexed albums stay walked albums other than the root |
| Galleries.Beyond | src/BrokunMusheen/FSGallery/Gallery.php:87-96 | a clock reading above every id seen, which bounds the repair loop |
| Galleries.Gallery.constructor | src/BrokunMusheen/FSGallery/Gallery.php:60-69 | the base album on the base directory, the index location in the data directory, and the index loaded when its file exists |
| Galleries.Gallery.LoadIndex | src/BrokunMusheen/FSGallery/Gallery.php:199-210 | true exactly when the index file exists; then it replaces the index, otherwise nothing changes |
| Galleries.Gallery.ParentFolder | src/BrokunMusheen/FSGallery/Gallery.php:168-182 | the base directory's parent, computed once |
| Galleries.Gallery.GetAlbum | src/BrokunMusheen/FSGallery/Gallery.php:117-129 | an album exactly when the base directory joined with the segments exists, at those segments |
| Galleries.Gallery.UniqueKey | src/BrokunMusheen/FSGallery/Gallery.php:87-96 | the key is not yet taken; an untaken id is kept; a taken one is replaced by the first fresh clock id |
| Galleries.Gallery.RenewId | src/BrokunMusheen/FSGallery/Gallery.php:87-96 | `unsetId` and `getId` give the id of the current clock reading, and the clock moves on |
| Galleries.Gallery.MetaPathAbsent | src/BrokunMusheen/FSGallery/Album.php:634-640 | after `unsetId` the sidecar is gone |
| Galleries.Gallery.IndexOne | src/BrokunMusheen/FSGallery/Gallery.php:82-100 | the root is skipped and nothing changes; any other album is indexed with its path under the key of its id; an untaken id is kept, a taken one is replaced by the next clock id |
| Galleries.Gallery.IndexAlbums | src/BrokunMusheen/FSGallery/Gallery.php:76-108 | the callback over the walk indexes every album but the root, in order, each under the key of its own id; the keys are distinct; each key is the album's first id when no earlier album took it, otherwise a fresh clock id; that first id is the id the album held before the walk or, when it held none, the id its sidecar recorded before the walk; only ids and creation times change |
| Galleries.Gallery.BuildIndex | src/BrokunMusheen/FSGallery/Gallery.php:76-108 | the walk covers every album, archived ones too; every album but the root is indexed with its path under the key of its id; each key is the album's first id when untaken, otherwise a fresh clock id; that first id is the id the album held before, or for an album without one (every album the walk creates) the id its sidecar recorded before; the keys are distinct; the index is written to its file and holds only existing paths |
| Galleries.Gallery.GetAlbumById | src/BrokunMusheen/FSGallery/Gallery.php:137-161 | none for an empty index or an unknown id, with nothing changed; an indexed path that exists gives the album there with nothing changed; a stale path rebuilds the index once, and then none means the id is gone |
| Galleries.Gallery.IndexNext | src/BrokunMusheen/FSGallery/Gallery.php:82-100 | one album's callback keeps the loop's facts (distinct entries keyed by id; each key its album's first id or a fresh clock id); an album with a path is appended to the indexed albums with its key and the id `getId` gave it before any repair; the root adds nothing; every other album's sidecar is left as it was |
| Galleries.Gallery.IndexStep | src/BrokunMusheen/FSGallery/Gallery.php:82-100 | one turn of the walk: the next album is indexed, after its id is repaired if taken, or skipped when it is the root; the loop's facts now hold for one more album of the walk; only that album's sidecar may change |
| Galleries.Gallery.IndexTurn | src/BrokunMusheen/FSGallery/Gallery.php:82-100 | one turn of the walk also keeps the link of every indexed album's first id to the state before the walk, and the sidecars of the albums not reached yet unchanged |
| Galleries.Gallery.IndexWalk | src/BrokunMusheen/FSGallery/Gallery.php:78-101 | the walk `buildIndex` makes covers every album, archived ones too, with no album twice; the ids it records are those the albums held before, or none for the albums it created |
| Galleries.Gallery.Rebuild | src/BrokunMusheen/FSGallery/Gallery.php:153-159 | the rebuild leaves a valid gallery whose index holds only existing paths |
| Galleries.ProperStep | src/BrokunMusheen/FSGallery/Gallery.php:82-100 | one more album of the walk adds itself to the indexed positions exactly when it is not the root |
| Galleries.MetaPaths | src/BrokunMusheen/FSGallery/Album.php:624-627 | the sidecar path of each album, in order |
| Galleries.MetaPathInjective | src/BrokunMusheen/FSGallery/Album.php:624-627 | two positions with the same sidecar path are the same position |
| Galleries.MetaPathsDistinct | src/BrokunMusheen/FSGallery/Album.php:624-627 | albums at distinct positions have distinct sidecar paths |
| Galleries.Gallery.SidecarsKeptStep | src/BrokunMusheen/FSGallery/Gallery.php:82-100 | a turn that changes only its own album's sidecar keeps the sidecars of the albums after it |
| Galleries.Gallery.RecordedStep | src/BrokunMusheen/FSGallery/Gallery.php:82-100 | a turn that indexes an album with a first id taken from its old id or old sidecar keeps that link for every indexed album |
| Galleries.Gallery.MetaStepFound | src/BrokunMusheen/FSGallery/Album.php:128-136 | an album without an id whose sidecar exists takes the id that sidecar records |
| Galleries.Gallery.Reindex | src/BrokunMusheen/FSGallery/Gallery.php:153-159 | after rebuilding, the index holds only existing paths; none exactly when the new index lacks the id, otherwise the album at its indexed path |
| Fixtures.ArchivedByUnderscore | src/BrokunMusheen/FSGallery/Album.php:588-608 | a name of `_` and a title character parses as archived |
| Fixtures.UnarchivedByTitle | src/BrokunMusheen/FSGallery/Album.php:588-608 | a name starting with a title character is not archived |
| Fixtures.BooName | tests/AlbumTest.php:202-222 | folder `_boo` parses as archived, title `boo`, not sticky |
| Fixtures.FeaturedName | tests/AlbumTest.php:215-218 | folder `featured_s` parses as unarchived, title `featured`, sticky |
| Fixtures.FooAlbums | tests/AlbumTest.php:103-127 | album `foo` has four unarchived sub-albums and five in all |
| Fixtures.FooShapeUnarchived | tests/AlbumTest.php:250-255 | without archived albums, the walk from `foo` visits 7 albums and finds 4 leaves |
| Fixtures.FooShapeAll | tests/AlbumTest.php:256-260 | with archived albums, the walk from `foo` visits 10 albums and finds 7 leaves |
| Fixtures.GalleryWalk | tests/AlbumTest.php:379-397 | the walk from the gallery root visits 8 albums without archived ones and 11 with them |
| FileFixtures.ParsesAs | src/BrokunMusheen/FSGallery/File.php:279-301 | a name spelled from spellable attributes parses to them; used by the file-name fixtures |
| FileFixtures.Img1Name | tests/FileTest.php:13-16 | `img-1.jpg` parses with extension `jpg` |
| FileFixtures.SampleVidName | tests/FileTest.php:18-19 | `sample-vid-1.mp4` parses with extension `mp4` |
| FileFixtures.OrderedPhoto2Name | tests/FileTest.php:29-30 | `2_photo-2.jpg` parses with order 2 |
| FileFixtures.Photo1Name | tests/FileTest.php:35-36 | `photo-1.jpg` parses with the empty order |
| FileFixtures.OrderedPhoto3Name | tests/FileTest.php:97-101 | `1_photo-3.jpg` parses with title `photo-3` |
| FileFixtures.Photo3ThumbName | tests/FileTest.php:133-134 | `photo-3_thumb.jpg` parses as a thumbnail |
| FileFixtures.Photo2Name | tests/FileTest.php:110-111 | `photo-2.jpg` parses as neither a thumbnail nor archived |
| FileFixtures.ArchivedPhoto3Name | tests/FileTest.php:116-117 | `_photo-3.jpg` parses as archived |
| FileFixtures.PhotoCName | tests/FileTest.php:122-123 | `photo-c.jpg` does not parse as archived |
| FileFixtures.ThumbnailFixtures | tests/FileTest.php:131-138 | `isThumbnail` is true for `photo-3_thumb.jpg` and false for `photo-2.jpg` |
| FileFixtures.ArchivedFixtures | tests/FileTest.php:108-124 | `photo-2.jpg` in `foo/baz/bazzy` is not archived; `_photo-3.jpg` is by its name; `photo-c.jpg` is not by its name but its album `_boo` is |
| FileFixtures.AncestorsFixture | tests/FileTest.php:108-124 | no album on the way from `foo/baz/bazzy` is archived; `foo/_boo` is |
| FileFixtures.ContainingDirectoryFixture | tests/FileTest.php:157-160 | `getContainingDirectory('/foo/bar/baz.jpg')` is `/foo/bar` |
| FileFixtures.Photo2Fixture | tests/FileTest.php:66-70 | a file object on `foo/baz/bazzybazz/2_photo-2.jpg` has the name `2_photo-2.jpg` |
| FileFixtures.Photo2OrderFixture | tests/FileTest.php:27-31 | the same file has order 2 and title `photo-2` |
| FileFixtures.Photo2UrlFixture | tests/FileTest.php:55-59 | the same file's URL is the root URL followed by `/foo/baz/bazzybazz/2_photo-2.jpg` |
| FileFixtures.UrlUnder | src/BrokunMusheen/FSGallery/File.php:104-121 | a path under the base directory, in which the base's first character does not recur, has the root URL followed by the rest as its URL |
| FileFixtures.UrlFixture | tests/FileTest.php:55-59 | under the test configuration the URL of `foo/baz/bazzybazz/2_photo-2.jpg` is the root URL followed by that path |
| FileFixtures.BarNames | tests/TestCase.php:44-51 | album `bar` lists `header.jpg` and five pictures: `img-1` with its thumbnail, `img-2`, and `img-3` with its thumbnail |
| FileFixtures.BarHeaderSkipped | src/BrokunMusheen/FSGallery/Album.php:513-530 | the header image `header.jpg` is reserved and stays out of the content table |
| FileFixtures.JpgKept | src/BrokunMusheen/FSGallery/Album.php:519-549 | a `.jpg` or `_thumb.jpg` file with a plain stem is kept under its stem as title, marked thumbnail or original |
| FileFixtures.FoldOfBar | tests/AlbumTest.php:164-181 | five files shaped like bar's pictures give three slots: the first and third titles hold a thumbnail and an original, the second only an original |
| FileFixtures.ParentOfJoin | src/BrokunMusheen/FSGallery/Gallery.php:168-182 | the parent folder of a name joined under `p` is `p` |
| FileFixtures.ParentFixture | tests/GalleryTest.php:9-13 | the parent folder of `vfs://public/gallery` is `vfs://public` |
| FileFixtures.AlbumLookupFixture | tests/GalleryTest.php:31-38 | `foo/bar` exists in the test tree and `not/here` does not |

## Left out

- Files.File.GetUrl: the model's `getUrl` removes the base directory only at the front of the path. This is the evidently intended behaviour; the as-written behaviour is `Files.UrlAsWritten` (see Findings).
- Files.File.GetThumbnail: looks the title up as a whole key. This is the evidently intended behaviour; the as-written `array_get` lookup is `Files.ThumbnailAsWritten` (see Findings).
- Files.File.constructor: requires a file name without a line break. The file-name expression has no multi-line flag, and file listings never hold line breaks.
- `File::make`, `isDescription`, `isImage`, `isMetaInfo` and `isVideo` are thin tests of `FileNames.Type`. They are used through `AlbumSpecs.Classify` and have no members of their own.
- `File::setThumbnail`, `getDescription`, `_loadDescriptionFile` and caption files are left out. They read text files, and the content table only skips captions.
- `Album::getHeaderImage` is left out. It only tests whether the header image exists on disk.
- `Image`, `Video` and `Description` are not part of this model. A picture or a video is a `Media` value holding a path and a kind.
- Reading and writing JSON, the `Filesystem` and `Finder` components, and `Config::get` become the `Disk` class and its `Config` value.
- File modification times are the `mtime` parameter of the disk.
- `uniqid()` is the hexadecimal spelling of a clock that moves on by one for each id. The source's ids come from the time, and `usleep` is left out.
- Albums.Album.GetParent: the `_parent` cache is not modelled. Every call makes a new parent album, so `getPath` changes no state.
- Galleries.Gallery.GetAlbum: a path naming a file rather than a directory counts as absent. The disk only knows directories.
- Galleries.Gallery.GetAlbum: the segments are looked up one by one in the directory tree, so `..`, `.` and empty segments are never resolved. `Storage.NameOk` accepts `.` and `..` as ordinary names. The source hands the joined path to `Filesystem::exists`, PHP's `file_exists`, which resolves them (src/BrokunMusheen/FSGallery/Gallery.php:117-129). There `getAlbum(['..'])` gives an album on the gallery's parent folder, outside the tree, and `getAlbum(['foo', ''])` gives one on `foo/`. The model answers none for both. The same holds for an index entry holding such segments in `getAlbumById`.
- Galleries.KeyOf: PHP's loose comparison in `in_array` and array keys is modelled as equality of strings, with a null id read as ''. Numeric strings that PHP compares as numbers are not modelled.
- Galleries.Gallery.UniqueKey: the ids already taken are given as a set. In the source they are the list `$album_ids`, which always holds the same ids as the index keys.
- The configured delimiter is a single character, `/` or `\`.
- FileFixtures.FoldOfBar: the tests expect three entries in the content table of album `bar` (tests/AlbumTest.php:147-181). The model states the parts: `BarNames` for its listing, `BarHeaderSkipped` for the header, `JpgKept` for each picture, and `FoldOfBar` for the table of five pictures shaped like bar's. The single equation for the whole table of bar's literal listing is not stated. `AlbumSpecs.FoldIsExpected` states the table for every listing.
- Albums.Album.AlbumWalk: returns the visited albums instead of taking a callback. `buildIndex` applies its callback to them after the walk, not during it. The order is the same. The callback changes only ids, creation times, sidecar files and the clock, which the walk never reads and, as its contract states, never changes, so the index comes out the same.
- Albums.Album.UnsetId: the source's `unlink` (src/BrokunMusheen/FSGallery/Album.php:636) warns, or throws under an error handler, when the sidecar is missing; the model removes nothing then and goes on.
- Storage.NameOk: every file and sub-directory is listed. `Finder` by default skips dot files and version-control folders (src/BrokunMusheen/FSGallery/Album.php:515, 577), and the model does not. `Storage.NameOk` also allows a name that starts with `.`. A tree holding such names gives more albums or files in the model than in the source.
- Files.File.constructor: does not require the file's directory to exist. The source's `Finder::in` (src/BrokunMusheen/FSGallery/File.php:51-52) throws when it does not.
- Galleries.Gallery.BuildIndex: states where each first id comes from (the album's old id or its old sidecar) and that each key is that id or a fresh one, but does not state the sidecar file contents after the walk: a repaired album's sidecar holds its new key, which `Albums.Album.GetId` and `MetaFiles.MetaInfoStepStores` state for one album, and the model carries only the sidecars of the albums not reached yet across the walk.
- Concurrency between processes writing the same sidecar or index file is left out.

## Findings

| source | as written | input that shows it | evidently intended | confidence | as-written member | corrected member |
|---|---|---|---|---|---|---|
| src/BrokunMusheen/FSGallery/File.php:145-150 | `getThumbnail` looks up `title.thumb` with `array_get`, whose dots step into nested arrays | a picture `my.photo.jpg` (title `my.photo`) with a thumbnail: the key `my.photo.thumb` is split into `my`, `photo`, `thumb` and nothing is found | the thumbnail in the slot under the whole title | not executed | Files.ThumbnailAsWrittenMissesDottedTitle | Files.File.GetThumbnail |
| src/BrokunMusheen/FSGallery/File.php:104-121 | `getUrl` removes the base directory with `str_replace`, which removes every copy | base directory `/web` and the file `/web/a/web/b.jpg`: the URL is that of `/a/b.jpg` | only the leading base directory is removed, giving `/a/web/b.jpg` | not executed | Files.UrlAsWrittenCutsInside | Files.File.GetUrl |
