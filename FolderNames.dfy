/**
 * The folder-name convention `[_]title[_s]` of albums
 * (`Album::_parseFolderName`, src/BrokunMusheen/FSGallery/Album.php:588-608).
 *
 * The source searches the name with the unanchored expression
 * `(_?)([^_\r\n]+)_?(s?)`; here the leftmost match it finds is computed
 * directly.
 */
module FolderNames {
  import opened Wrappers

  /** A character the title group `[^_\r\n]` admits. */
  predicate TitleChar(c: char)
  {
    c != '_' && c != '\r' && c != '\n'
  }

  /** The attributes a folder name gives its album. */
  datatype FolderInfo = FolderInfo(isArchived: bool, title: string, isSticky: bool)

  /** A match of the expression can start at `p`. */
  predicate StartsMatch(s: string, p: nat)
  {
    p < |s| && (TitleChar(s[p]) || (s[p] == '_' && p + 1 < |s| && TitleChar(s[p + 1])))
  }

  /** The leftmost position at or after `i` where a match starts, if any. */
  function MatchStart(s: string, i: nat): (p: Option<nat>)
    requires i <= |s|
    ensures p.Some? ==> i <= p.value < |s| && StartsMatch(s, p.value)
    ensures p.Some? ==> forall q | i <= q < p.value :: !StartsMatch(s, q)
    ensures p.None? ==> forall q | i <= q < |s| :: !TitleChar(s[q])
    decreases |s| - i
  {
    if i == |s| then None
    else if StartsMatch(s, i) then Some(i)
    else MatchStart(s, i + 1)
  }

  /** The end of the run of title characters starting at `i`. */
  function TitleEnd(s: string, i: nat): (j: nat)
    requires i <= |s|
    ensures i <= j <= |s|
    ensures forall k | i <= k < j :: TitleChar(s[k])
    ensures j < |s| ==> !TitleChar(s[j])
    decreases |s| - i
  {
    if i < |s| && TitleChar(s[i]) then TitleEnd(s, i + 1) else i
  }

  /**
   * `Album::_parseFolderName`: the leftmost match. The album is archived
   * when the match starts with `_`, the title is the whole run of title
   * characters that follows, and the album is sticky when that run is
   * followed by `_s`. There is no match when the name has no title
   * character at all.
   */
  function ParseFolderName(s: string): (r: Option<FolderInfo>)
    ensures r.None? <==> forall q | 0 <= q < |s| :: !TitleChar(s[q])
  {
    match MatchStart(s, 0)
    case None => None
    case Some(p) =>
      var t := if s[p] == '_' then p + 1 else p;
      var e := TitleEnd(s, t);
      Some(FolderInfo(s[p] == '_', s[t..e], e + 1 < |s| && s[e] == '_' && s[e + 1] == 's'))
  }

  /** A folder name is archived when it parses with the archived flag (a failed parse counts as not archived). */
  predicate ArchivedName(s: string)
  {
    var r := ParseFolderName(s);
    r.Some? && r.value.isArchived
  }

  /** The folder name an album with these attributes would be given. */
  function FormatFolderName(info: FolderInfo): string
  {
    (if info.isArchived then "_" else "") + info.title + (if info.isSticky then "_s" else "")
  }

  /**
   * `info` describes `s` read from position `p`: before `p` no title
   * character, and no underscore right before an unarchived title; the
   * archived flag is a leading `_`; the title is a non-empty run of title
   * characters that nothing extends; the sticky flag is a following `_s`.
   */
  predicate DescribesAt(s: string, info: FolderInfo, p: nat)
  {
    var t := p + (if info.isArchived then 1 else 0);
    var e := t + |info.title|;
    e <= |s| &&
    (forall q | 0 <= q < p :: !TitleChar(s[q])) &&
    (!info.isArchived && p > 0 ==> s[p - 1] != '_') &&
    (info.isArchived ==> s[p] == '_') &&
    s[t..e] == info.title && info.title != [] &&
    (forall k | 0 <= k < |info.title| :: TitleChar(info.title[k])) &&
    (e < |s| ==> !TitleChar(s[e])) &&
    (info.isSticky <==> e + 1 < |s| && s[e] == '_' && s[e + 1] == 's')
  }

  /** A successful parse describes the name from the leftmost place a match can start. */
  lemma {:induction false} ParseFolderNameShape(s: string)
    requires ParseFolderName(s).Some?
    ensures DescribesAt(s, ParseFolderName(s).value, MatchStart(s, 0).value)
  {
    var p := MatchStart(s, 0).value;
    var t := if s[p] == '_' then p + 1 else p;
    var e := TitleEnd(s, t);
    assert ParseFolderName(s).value
        == FolderInfo(s[p] == '_', s[t..e], e + 1 < |s| && s[e] == '_' && s[e + 1] == 's');
    assert forall q | 0 <= q < p :: !TitleChar(s[q]) by {
      forall q | 0 <= q < p ensures !TitleChar(s[q]) {
        assert !StartsMatch(s, q);
      }
    }
    assert s[p] != '_' && p > 0 ==> s[p - 1] != '_' by {
      if s[p] != '_' && p > 0 {
        assert !StartsMatch(s, p - 1);
      }
    }
    assert t < e;
    RunIsTitle(s, t, e);
  }

  /** A run of title characters, read off as a string, holds only title characters. */
  lemma RunIsTitle(s: string, t: nat, e: nat)
    requires t <= e <= |s|
    requires forall k | t <= k < e :: TitleChar(s[k])
    ensures forall k | 0 <= k < e - t :: TitleChar(s[t..e][k])
  {
  }

  /** Formatting an album's attributes and parsing the result gives them back. */
  lemma {:induction false} ParseFormatFolderName(info: FolderInfo)
    requires info.title != []
    requires forall k | 0 <= k < |info.title| :: TitleChar(info.title[k])
    ensures ParseFolderName(FormatFolderName(info)) == Some(info)
  {
    var s := FormatFolderName(info);
    var t := if info.isArchived then 1 else 0;
    var e := t + |info.title|;
    assert s[t..e] == info.title;
    assert StartsMatch(s, 0) by {
      assert s[t] == info.title[0];
    }
    assert MatchStart(s, 0) == Some(0);
    assert forall k | t <= k < e :: TitleChar(s[k]) by {
      forall k | t <= k < e ensures TitleChar(s[k]) {
        assert s[k] == info.title[k - t];
      }
    }
    TitleEndAt(s, t, e);
  }

  /** A run of title characters ended by a non-title character or the end ends there. */
  lemma TitleEndAt(s: string, i: nat, j: nat)
    requires i <= j <= |s|
    requires forall k | i <= k < j :: TitleChar(s[k])
    requires j < |s| ==> !TitleChar(s[j])
    ensures TitleEnd(s, i) == j
    decreases j - i
  {
    if i < j {
      TitleEndAt(s, i + 1, j);
    }
  }
}
