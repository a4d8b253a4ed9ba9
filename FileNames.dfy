/**
 * What a file's name and path say about it (the stateless part of
 * src/BrokunMusheen/FSGallery/File.php): the file-name convention
 * `[_][order][_]title[_marker].extension`, the content kind read off the
 * path, and the containing directory.
 *
 * The convention is a regular expression in the source; here it is the
 * string function that computes the match the expression's backtracking
 * search finds, for names without a line break.
 */
module FileNames {
  import opened Wrappers
  import opened FilePaths

  /** The fixed name of an album's sidecar file (`MetaFile::$file_name`). */
  const MetaFileName: string := ".meta.info"

  /** The last `_`-separated piece that marks a caption file. */
  const CaptionSuffix: string := "caption.txt"

  predicate IsDigit(c: char)
  {
    '0' <= c <= '9'
  }

  /** The end of the longest run of `IsDigit` characters of `s` starting at `i`. */
  function DigitRunEnd(s: string, i: nat): (j: nat)
    requires i <= |s|
    ensures i <= j <= |s|
    ensures forall k | i <= k < j :: IsDigit(s[k])
    ensures j < |s| ==> !IsDigit(s[j])
    decreases |s| - i
  {
    if i < |s| && IsDigit(s[i]) then DigitRunEnd(s, i + 1) else i
  }

  /** The end of the longest run of characters other than `_` starting at `i`. */
  function TitleRunEnd(s: string, i: nat): (j: nat)
    requires i <= |s|
    ensures i <= j <= |s|
    ensures '_' !in s[i..j]
    ensures j < |s| ==> s[j] == '_'
    decreases |s| - i
  {
    if i < |s| && s[i] != '_' then
      var j := TitleRunEnd(s, i + 1);
      assert s[i..j] == [s[i]] + s[i + 1..j];
      j
    else i
  }

  /**
   * The capture groups of the file-name expression, together with the two
   * optional underscores it matches without capturing them.
   */
  datatype Groups = Groups(
    underscore: string,  // `(_?)`
    order: string,       // `(\d*)?`
    sep1: string,        // `_?`
    title: string,       // `([^_]*)`
    sep2: string,        // `_?`
    marker: string,      // `(.*)` before the final dot
    extension: string)   // `(.*)` after it
  {
    /** The text the groups cover, in order. */
    function Text(): string
    {
      underscore + (order + Rest())
    }

    /** The text after the leading digits. */
    function Rest(): string
    {
      sep1 + (title + (sep2 + (marker + ("." + extension))))
    }

    /** Every group holds only what its part of the expression admits. */
    predicate WellShaped()
    {
      (underscore == "" || underscore == "_") &&
      (forall k | 0 <= k < |order| :: IsDigit(order[k])) &&
      (sep1 == "" || sep1 == "_") &&
      '_' !in title &&
      (sep2 == "" || sep2 == "_") &&
      '\n' !in marker && '\n' !in extension
    }
  }

  /**
   * The match `^(_?)(\d*)?_?([^_]*)_?(.*)\.(.*)$` finds in `name`
   * (src/BrokunMusheen/FSGallery/File.php:283). It exists exactly when the
   * name has a dot; its groups spell the whole name; and each greedy part
   * takes as much as the rest of the expression leaves it: the leading
   * underscore whenever there is one, every leading digit, the following
   * underscore, the title up to the next underscore or the last dot, and
   * the marker up to the last dot.
   */
  function MatchFilename(name: string): (r: Option<Groups>)
    requires '\n' !in name
    ensures r.Some? <==> '.' in name
    ensures r.Some? ==> r.value.Text() == name && r.value.WellShaped()
    ensures r.Some? ==> (r.value.underscore == "_" <==> name[0] == '_')
    ensures r.Some? ==>
      var rest := r.value.Rest();
      !IsDigit(rest[0]) && (r.value.sep1 == "_" <==> rest[0] == '_')
    ensures r.Some? ==> r.value.sep2 == "_" || r.value.marker == ""
    ensures r.Some? ==> '.' !in r.value.extension
  {
    match LastIndexOf(name, '.')
    case None => None
    case Some(dot) =>
      GroupsSpellName(name, dot);
      GroupsShaped(name, dot);
      GroupsGreedy(name, dot);
      Some(GroupsAt(name, dot))
  }

  /** The groups cut out of `name` by `CutsOf`. */
  function GroupsAt(name: string, dot: nat): Groups
    requires dot < |name| && name[dot] == '.'
  {
    var k := CutsOf(name, dot);
    Groups(name[..k.a], name[k.a..k.b], name[k.b..k.c], name[k.c..k.e],
           name[k.e..k.m], name[k.m..dot], name[dot + 1..])
  }

  lemma GroupsSpellName(name: string, dot: nat)
    requires dot < |name| && name[dot] == '.'
    ensures GroupsAt(name, dot).Text() == name
    ensures GroupsAt(name, dot).Rest() == name[CutsOf(name, dot).b..]
  {
    var k := CutsOf(name, dot);
    SliceChain(name, k.a, k.b, k.c, k.e, k.m, dot);
  }

  lemma GroupsShaped(name: string, dot: nat)
    requires '\n' !in name
    requires dot < |name| && name[dot] == '.'
    ensures GroupsAt(name, dot).WellShaped()
  {
    var k := CutsOf(name, dot);
    var g := GroupsAt(name, dot);
    SlicesFree(name, k.m, dot, '\n');
    SlicesFree(name, dot + 1, |name|, '\n');
    DigitSlice(name, k.a, k.b);
  }

  lemma GroupsGreedy(name: string, dot: nat)
    requires dot < |name| && name[dot] == '.' && '.' !in name[dot + 1..]
    ensures GroupsAt(name, dot).underscore == "_" <==> name[0] == '_'
    ensures !IsDigit(GroupsAt(name, dot).Rest()[0])
    ensures GroupsAt(name, dot).sep1 == "_" <==> GroupsAt(name, dot).Rest()[0] == '_'
    ensures GroupsAt(name, dot).sep2 == "_" || GroupsAt(name, dot).marker == ""
    ensures '.' !in GroupsAt(name, dot).extension
  {
    var k := CutsOf(name, dot);
    var g := GroupsAt(name, dot);
    GroupsSpellName(name, dot);
    OptionalUnderscore(name, 0, k.a);
    OptionalUnderscore(name, k.b, k.c);
    OptionalUnderscore(name, k.e, k.m);
  }

  /** A slice `s[i..j]` taken as `_?` is `"_"` exactly when it is not empty. */
  lemma OptionalUnderscore(s: string, i: nat, j: nat)
    requires i < |s| && j == (if s[i] == '_' then i + 1 else i)
    ensures s[i..j] == "_" <==> s[i] == '_'
    ensures s[i..j] == "" <==> s[i] != '_'
  {
    if s[i] == '_' { assert s[i..j] == [s[i]]; }
  }

  /** Where the groups of the match start and end: `[..a]`, `[a..b]`, ... */
  datatype Cuts = Cuts(a: nat, b: nat, c: nat, e: nat, m: nat)

  /** The cuts of the match, given the position of the last dot. */
  function CutsOf(name: string, dot: nat): (k: Cuts)
    requires dot < |name| && name[dot] == '.'
    ensures k.a <= k.b <= k.c <= k.e <= k.m <= dot
    ensures k.a == (if name[0] == '_' then 1 else 0)
    ensures forall i | k.a <= i < k.b :: IsDigit(name[i])
    ensures !IsDigit(name[k.b])
    ensures k.c == (if name[k.b] == '_' then k.b + 1 else k.b)
    ensures '_' !in name[k.c..k.e]
    ensures k.e == dot || name[k.e] == '_'
    ensures k.m == (if name[k.e] == '_' then k.e + 1 else k.e)
  {
    var a := if name[0] == '_' then 1 else 0;
    var b := DigitRunEnd(name, a);
    assert b <= dot;
    var c := if name[b] == '_' then b + 1 else b;
    assert c <= dot;
    var e0 := TitleRunEnd(name, c);
    var e := if e0 < dot then e0 else dot;
    assert '_' !in name[c..e] by {
      forall x | c <= x < e ensures name[x] != '_' {
        assert name[x] == name[c..e0][x - c];
      }
    }
    Cuts(a, b, c, e, if name[e] == '_' then e + 1 else e)
  }

  /** Consecutive slices of a string, nested to the right, spell the string. */
  lemma SliceChain(s: string, a: nat, b: nat, c: nat, e: nat, m: nat, dot: nat)
    requires a <= b <= c <= e <= m <= dot < |s| && s[dot] == '.'
    ensures s[b..] == s[b..c] + (s[c..e] + (s[e..m] + (s[m..dot] + ("." + s[dot + 1..]))))
    ensures s == s[..a] + (s[a..b] + s[b..])
  {
    assert s[dot..] == "." + s[dot + 1..];
    assert s[m..] == s[m..dot] + s[dot..];
    assert s[e..] == s[e..m] + s[m..];
    assert s[c..] == s[c..e] + s[e..];
    assert s[b..] == s[b..c] + s[c..];
    assert s[a..] == s[a..b] + s[b..];
    assert s == s[..a] + s[a..];
  }

  lemma SlicesFree(s: string, i: nat, j: nat, c: char)
    requires i <= j <= |s| && c !in s
    ensures c !in s[i..j]
  {

  }

  lemma DigitSlice(s: string, i: nat, j: nat)
    requires i <= j <= |s|
    requires forall x | i <= x < j :: IsDigit(s[x])
    ensures forall x | 0 <= x < j - i :: IsDigit(s[i..j][x])
  {
  }

  /** The parsed fields of a file name, as `_parseFilename` returns them. */
  datatype FileInfo = FileInfo(
    isArchived: bool,
    order: string,
    title: string,
    isThumbnail: bool,
    extension: string)

  /**
   * `File::_parseFilename` (src/BrokunMusheen/FSGallery/File.php:279-301):
   * the match's groups as the file's attributes, or None when the name does
   * not match.
   */
  function ParseFilename(name: string): (r: Option<FileInfo>)
    requires '\n' !in name
    ensures r.Some? <==> '.' in name
    ensures r.Some? ==> (r.value.isArchived <==> name[0] == '_')
    ensures r.Some? ==> '_' !in r.value.title
  {
    match MatchFilename(name)
    case None => None
    case Some(g) =>
      Some(FileInfo(g.underscore == "_", g.order, g.title, g.marker == "thumb", g.extension))
  }

  /** `File::isThumbnail`: false when the name did not parse. */
  function IsThumbnail(info: Option<FileInfo>): bool
  {
    info.Some? && info.value.isThumbnail
  }

  /**
   * The name a file with these attributes has under the convention: the
   * archive mark, the order and its separator, the title, the thumbnail
   * marker, then the extension.
   */
  function FormatFilename(info: FileInfo): string
  {
    (if info.isArchived then "_" else "") + info.order + (if info.order == "" then "" else "_") +
    info.title + (if info.isThumbnail then "_thumb" else "") + "." + info.extension
  }

  /**
   * Attributes the convention spells unambiguously: a digit order, a title
   * that starts with no digit and holds no underscore or dot, an extension
   * without a dot.
   */
  predicate Spellable(info: FileInfo)
  {
    (forall k | 0 <= k < |info.order| :: IsDigit(info.order[k])) &&
    info.title != "" && !IsDigit(info.title[0]) &&
    '_' !in info.title && '.' !in info.title && '\n' !in info.title &&
    '.' !in info.extension && '\n' !in info.extension
  }

  /** Parsing the name spelled from spellable attributes gives them back. */
  lemma ParseFormatFilename(info: FileInfo)
    requires Spellable(info)
    ensures var name := FormatFilename(info);
      '\n' !in name && ParseFilename(name) == Some(info)
  {
    var u := if info.isArchived then "_" else "";
    var s1 := if info.order == "" then "" else "_";
    var mk := if info.isThumbnail then "_thumb" else "";
    ThumbMarker();
    assert (u == "_") == info.isArchived && (mk != "") == info.isThumbnail;
    assert FormatFilename(info) == u + info.order + s1 + info.title + mk + "." + info.extension;
    ParseSpelled(u, info.order, s1, info.title, mk, info.extension);
  }

  /** The pieces of the thumbnail marker. */
  lemma ThumbMarker()
    ensures "_thumb"[..1] == "_" && "_thumb"[1..] == "thumb" && |"_thumb"| == 6
  {
  }

  /** The same, for the name's pieces taken one by one. */
  lemma ParseSpelled(u: string, o: string, s1: string, t: string, mk: string, x: string)
    requires u == "" || u == "_"
    requires forall k | 0 <= k < |o| :: IsDigit(o[k])
    requires s1 == (if o == "" then "" else "_")
    requires t != "" && !IsDigit(t[0]) && '_' !in t && '.' !in t && '\n' !in t
    requires mk == "" || (mk[..1] == "_" && mk[1..] == "thumb" && |mk| == 6)
    requires '.' !in x && '\n' !in x
    ensures var name := u + o + s1 + t + mk + "." + x;
      '\n' !in name &&
      ParseFilename(name) == Some(FileInfo(u == "_", o, t, mk != "", x))
  {
    var name := u + o + s1 + t + mk + "." + x;
    assert '\n' !in o by {
      forall k | 0 <= k < |o| ensures o[k] != '\n' { assert IsDigit(o[k]); }
    }
    assert '\n' !in mk;
    SpelledAt(name, u, o, s1, t, mk, x);
    ParsePieces(name, u, o, s1, t, mk, x);
  }

  /** The parse of a name, read off where its pieces sit. */
  lemma ParsePieces(name: string, u: string, o: string, s1: string, t: string, mk: string, x: string)
    requires u == "" || u == "_"
    requires forall k | 0 <= k < |o| :: IsDigit(o[k])
    requires s1 == (if o == "" then "" else "_")
    requires t != "" && !IsDigit(t[0]) && '_' !in t && '.' !in t
    requires mk == "" || (mk[..1] == "_" && mk[1..] == "thumb" && |mk| == 6)
    requires var a, b, c := |u|, |u| + |o|, |u| + |o| + |s1|;
      var e := c + |t|;
      var dot := e + |mk|;
      |name| == dot + 1 + |x| && name[dot] == '.' &&
      name[..a] == u && name[a..b] == o && name[b..c] == s1 && name[c..e] == t &&
      name[e..dot] == mk && name[dot + 1..] == x
    requires '.' !in x && '\n' !in name
    ensures ParseFilename(name) == Some(FileInfo(u == "_", o, t, mk != "", x))
  {
    var a, b, c := |u|, |u| + |o|, |u| + |o| + |s1|;
    var e := c + |t|;
    var dot := e + |mk|;
    var m := if mk == "" then e else e + 1;
    PiecesCut(name, u, o, s1, t, mk, x);
    LastDot(name, dot);
    MarkerRead(name, e, dot, mk);
    assert (u == "_") == (a == 1) by {
      if u != "_" { assert u == ""; }
    }
    ParseCut(name, a, b, c, e, m, dot, FileInfo(u == "_", o, t, mk != "", x));
  }

  /** The marker group reads `thumb` exactly when the thumbnail piece is there. */
  lemma MarkerRead(name: string, e: nat, dot: nat, mk: string)
    requires e <= dot <= |name| && name[e..dot] == mk
    requires mk == "" || (mk[1..] == "thumb" && |mk| == 6)
    ensures var m := if mk == "" then e else e + 1;
      (name[m..dot] == "thumb") == (mk != "")
  {
    if mk != "" {
      assert name[e + 1..dot] == name[e..dot][1..];
    } else {
      assert |name[e..dot]| != |"thumb"|;
    }
  }

  /** The greedy parts of the expression cut a spelled name between its pieces. */
  lemma PiecesCut(name: string, u: string, o: string, s1: string, t: string, mk: string, x: string)
    requires u == "" || u == "_"
    requires forall k | 0 <= k < |o| :: IsDigit(o[k])
    requires s1 == (if o == "" then "" else "_")
    requires t != "" && !IsDigit(t[0]) && '_' !in t && '.' !in t
    requires mk == "" || (mk[..1] == "_" && mk[1..] == "thumb" && |mk| == 6)
    requires var a, b, c := |u|, |u| + |o|, |u| + |o| + |s1|;
      var e := c + |t|;
      var dot := e + |mk|;
      |name| == dot + 1 + |x| && name[dot] == '.' &&
      name[..a] == u && name[a..b] == o && name[b..c] == s1 && name[c..e] == t &&
      name[e..dot] == mk && name[dot + 1..] == x
    ensures var a, b, c := |u|, |u| + |o|, |u| + |o| + |s1|;
      var e := c + |t|;
      CutsOf(name, e + |mk|) == Cuts(a, b, c, e, if mk == "" then e else e + 1)
  {
    var a, b, c := |u|, |u| + |o|, |u| + |o| + |s1|;
    var e := c + |t|;
    PiecesChars(name, u, o, s1, t, mk, x);
    CutsUnique(name, a, b, c, e, if mk == "" then e else e + 1, e + |mk|);
  }

  /** What each greedy part of the expression meets in a spelled name. */
  lemma PiecesChars(name: string, u: string, o: string, s1: string, t: string, mk: string, x: string)
    requires u == "" || u == "_"
    requires forall k | 0 <= k < |o| :: IsDigit(o[k])
    requires s1 == (if o == "" then "" else "_")
    requires t != "" && !IsDigit(t[0]) && '_' !in t && '.' !in t
    requires mk == "" || (mk[..1] == "_" && mk[1..] == "thumb" && |mk| == 6)
    requires var a, b, c := |u|, |u| + |o|, |u| + |o| + |s1|;
      var e := c + |t|;
      var dot := e + |mk|;
      |name| == dot + 1 + |x| && name[dot] == '.' &&
      name[..a] == u && name[a..b] == o && name[b..c] == s1 && name[c..e] == t &&
      name[e..dot] == mk && name[dot + 1..] == x
    ensures var a, b, c := |u|, |u| + |o|, |u| + |o| + |s1|;
      var e := c + |t|;
      var dot := e + |mk|;
      var m := if mk == "" then e else e + 1;
      a == (if name[0] == '_' then 1 else 0) &&
      (forall i | a <= i < b :: IsDigit(name[i])) &&
      !IsDigit(name[b]) && c == (if name[b] == '_' then b + 1 else b) &&
      (forall i | c <= i < e :: name[i] != '_') &&
      (e == dot || name[e] == '_') && m == (if name[e] == '_' then e + 1 else e)
  {
    var a, b, c := |u|, |u| + |o|, |u| + |o| + |s1|;
    var e := c + |t|;
    var dot := e + |mk|;
    assert name[b] == (if o == "" then t[0] else '_') by {
      if o == "" { assert name[b] == name[c..e][0]; } else { assert name[b] == name[b..c][0]; }
    }
    assert name[0] == (if u == "_" then '_' else if o == "" then t[0] else o[0]) by {
      if u == "_" { assert name[0] == name[..a][0]; }
      else if o != "" { assert name[0] == name[a..b][0]; }
    }
    forall i | a <= i < b ensures IsDigit(name[i]) {
      assert name[i] == name[a..b][i - a];
    }
    forall i | c <= i < e ensures name[i] != '_' {
      assert name[i] == name[c..e][i - c];
    }
    if mk != "" {
      assert name[e] == name[e..dot][0];
    }
  }

  /** Where the pieces of a spelled name sit in it. */
  lemma SpelledAt(name: string, u: string, o: string, s1: string, t: string, mk: string, x: string)
    requires name == u + o + s1 + t + mk + "." + x
    ensures var a, b, c := |u|, |u| + |o|, |u| + |o| + |s1|;
      var e := c + |t|;
      var dot := e + |mk|;
      |name| == dot + 1 + |x| && name[dot] == '.' &&
      name[..a] == u && name[a..b] == o && name[b..c] == s1 && name[c..e] == t &&
      name[e..dot] == mk && name[dot + 1..] == x
  {
    var a, b, c := |u|, |u| + |o|, |u| + |o| + |s1|;
    var e := c + |t|;
    var dot := e + |mk|;
    SliceIs(name, 0, u);
    SliceIs(name, a, o);
    SliceIs(name, b, s1);
    SliceIs(name, c, t);
    SliceIs(name, e, mk);
    SliceIs(name, dot + 1, x);
  }

  /**
   * A name cut at its last dot where `CutsOf` cuts it parses into the
   * pieces between the cuts.
   */
  lemma ParseCut(name: string, a: nat, b: nat, c: nat, e: nat, m: nat, dot: nat, info: FileInfo)
    requires '\n' !in name && dot < |name| && name[dot] == '.'
    requires LastIndexOf(name, '.') == Some(dot) && CutsOf(name, dot) == Cuts(a, b, c, e, m)
    requires info.isArchived == (a == 1) && info.order == name[a..b] && info.title == name[c..e]
    requires info.isThumbnail == (name[m..dot] == "thumb") && info.extension == name[dot + 1..]
    ensures ParseFilename(name) == Some(info)
  {
    var g := GroupsAt(name, dot);
    assert MatchFilename(name) == Some(g);
    assert (g.underscore == "_") == (a == 1) by {
      if a == 1 { assert g.underscore == [name[0]]; } else { assert |g.underscore| == 0; }
    }
  }

  /** Characters matching a string from position `i` on spell it as a slice. */
  lemma SliceIs(s: string, i: nat, p: string)
    requires i + |p| <= |s| && forall k | 0 <= k < |p| :: s[i + k] == p[k]
    ensures s[i..i + |p|] == p
  {
  }

  /** A dot with no dot after it is the last dot. */
  lemma LastDot(name: string, dot: nat)
    requires dot < |name| && name[dot] == '.' && '.' !in name[dot + 1..]
    ensures LastIndexOf(name, '.') == Some(dot)
  {
  }

  /** Cuts that meet every condition `CutsOf` promises are the ones it computes. */
  lemma CutsUnique(name: string, a: nat, b: nat, c: nat, e: nat, m: nat, dot: nat)
    requires a <= b <= c <= e <= m <= dot < |name| && name[dot] == '.'
    requires a == (if name[0] == '_' then 1 else 0)
    requires forall i | a <= i < b :: IsDigit(name[i])
    requires !IsDigit(name[b])
    requires c == (if name[b] == '_' then b + 1 else b)
    requires forall i | c <= i < e :: name[i] != '_'
    requires e == dot || name[e] == '_'
    requires m == (if name[e] == '_' then e + 1 else e)
    ensures CutsOf(name, dot) == Cuts(a, b, c, e, m)
  {
    var k := CutsOf(name, dot);
    assert k.e == e by {
      if k.e < e {
        assert name[k.e] != '_';
      }
    }
  }

  // ---------------------------------------------------------------------
  // Content kind

  datatype Kind = Meta | Desc | Jpg | Mp4

  /** `substr($path, strrpos($path, '.') + 1)`, or '' when there is no dot. */
  function Extension(path: string): (ext: string)
    ensures '.' !in ext
  {
    match LastIndexOf(path, '.')
    case None => ""
    case Some(i) => path[i + 1..]
  }

  /** The kind an extension names, if any. */
  function KindOfExtension(ext: string): Option<Kind>
  {
    if ext == "jpg" || ext == "jpeg" then Some(Jpg)
    else if ext == "mp4" then Some(Mp4)
    else None
  }

  /**
   * `File::type` (src/BrokunMusheen/FSGallery/File.php:311-341): the sidecar
   * by its name, a caption by the last `_`-piece of its name, and otherwise
   * by the text after the last dot of the whole path.
   */
  function Type(path: string, d: char): Option<Kind>
  {
    var name := LastSegment(path, d);
    if name == MetaFileName then Some(Meta)
    else if LastSegment(name, '_') == CaptionSuffix then Some(Desc)
    else KindOfExtension(Extension(path))
  }

  /** The same classification, judged by the file name alone. */
  function TypeOfName(name: string): Option<Kind>
  {
    if name == MetaFileName then Some(Meta)
    else if LastSegment(name, '_') == CaptionSuffix then Some(Desc)
    else KindOfExtension(Extension(name))
  }

  /**
   * `File::getContainingDirectory` (src/BrokunMusheen/FSGallery/File.php:350-355):
   * the text before the last delimiter, or '' when there is none.
   */
  function ContainingDirectory(path: string, d: char): (dir: string)
    ensures d in path ==> JoinPath(dir, LastSegment(path, d), d) == path
    ensures d !in path ==> dir == ""
  {
    match LastIndexOf(path, d)
    case None => ""
    case Some(i) =>
      LastSegmentAfter(path, d, i);
      path[..i]
  }

  /** The last segment of a path is what follows its last delimiter. */
  lemma LastSegmentAfter(path: string, d: char, i: nat)
    requires i < |path| && path[i] == d && d !in path[i + 1..]
    ensures LastSegment(path, d) == path[i + 1..]
    ensures JoinPath(path[..i], path[i + 1..], d) == path
  {
    assert path == path[..i] + [d] + path[i + 1..];
    SplitAppend(path[..i], path[i + 1..], d);
    assert path[i + 1..][..|path[i + 1..]|] == path[i + 1..];
  }

  /** The directory of a file placed under `dir` is `dir` again. */
  lemma ContainingDirectoryOfJoin(dir: string, name: string, d: char)
    requires d !in name
    ensures ContainingDirectory(JoinPath(dir, name, d), d) == dir
  {
    var p := JoinPath(dir, name, d);
    assert p[|dir|] == d && p[|dir| + 1..] == name && p[..|dir|] == dir;
  }

  // ---------------------------------------------------------------------
  // Properties

  /**
   * `type` reads the extension off the whole path, yet it agrees with the
   * classification of the file name alone: an extension that runs into a
   * directory holds the delimiter and names no kind.
   */
  lemma TypeDependsOnNameOnly(path: string, d: char)
    requires IsDelimiter(d)
    ensures Type(path, d) == TypeOfName(LastSegment(path, d))
  {
    var name := LastSegment(path, d);
    if d in path {
      var dir := ContainingDirectory(path, d);
      if '.' in name {
        ExtensionInName(dir, name, d);
      } else {
        ExtensionNotInName(dir, name, d);
      }
    } else {
      assert Split(path, d) == [path];
    }
  }

  /** When the file name has a dot, the last dot of the path is in the name. */
  lemma ExtensionInName(dir: string, name: string, d: char)
    requires d != '.' && d !in name && '.' in name
    ensures Extension(dir + [d] + name) == Extension(name)
  {
    var path := dir + [d] + name;
    var j := LastIndexOf(name, '.').value;
    var i := |dir| + 1 + j;
    assert path[i] == '.';
    assert path[i + 1..] == name[j + 1..];
    assert LastIndexOf(path, '.') == Some(i);
  }

  /**
   * When the file name has no dot, the path's extension is empty or runs
   * into a directory, and names no kind.
   */
  lemma ExtensionNotInName(dir: string, name: string, d: char)
    requires IsDelimiter(d) && d !in name && '.' !in name
    ensures KindOfExtension(Extension(dir + [d] + name)) == None
  {
    var path := dir + [d] + name;
    match LastIndexOf(path, '.')
    case None =>
    case Some(i) =>
      var ext := path[i + 1..];
      assert ext[|dir| - i - 1] == d;
      assert d !in "jpg" && d !in "jpeg" && d !in "mp4";
  }

  /**
   * A file that `type` recognises as a picture or a video has a dot in its
   * name, so its name matches the file-name expression.
   */
  lemma MediaNamesParse(path: string, d: char)
    requires IsDelimiter(d)
    requires Type(path, d) == Some(Jpg) || Type(path, d) == Some(Mp4)
    ensures '.' in LastSegment(path, d)
  {
    var name := LastSegment(path, d);
    TypeDependsOnNameOnly(path, d);
    assert Extension(name) != "";
  }
}
