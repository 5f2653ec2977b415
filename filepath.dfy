/**
 * `get_full_filepath` (core/filepath.c): the absolute path of a file of the
 * repository, found from the path of the running executable.
 *
 * The executable's path, which the source reads with readlink, is an input
 * (None when readlink fails). The path is copied into a fresh buffer of
 * 4096 characters, cut at the first "build", and the optional prefix and
 * the file name are copied in from there. Strings are NUL-free character
 * sequences; the buffer holds a C string, read back with CString.
 */
module FilePath {
  import opened Wrappers

  /** Line 8: the size of the path buffer. */
  const PathBufferSize := 4096

  /** Line 30: the directory name the path is cut at. */
  const BuildDir := "build"

  /** A C string's text: no NUL character inside. */
  predicate NoNul(s: seq<char>)
  {
    forall i | 0 <= i < |s| :: s[i] != '\0'
  }

  /** The C string stored at the start of a buffer: its characters up to the first NUL. */
  function CString(buf: seq<char>): (s: seq<char>)
    ensures |s| <= |buf| && NoNul(s) && s == buf[..|s|]
    ensures |s| < |buf| ==> buf[|s|] == '\0'
  {
    if |buf| == 0 || buf[0] == '\0' then []
    else [buf[0]] + CString(buf[1..])
  }

  /** A buffer holding s followed by a NUL holds the C string s. */
  lemma {:induction false} CStringOf(buf: seq<char>, s: seq<char>)
    requires NoNul(s) && |s| < |buf| && buf[..|s|] == s && buf[|s|] == '\0'
    ensures CString(buf) == s
  {
    if |s| > 0 {
      assert buf[1..][..|s| - 1] == s[1..];
      CStringOf(buf[1..], s[1..]);
    }
  }

  /** `needle` occurs in s at position i. */
  predicate OccursAt(s: seq<char>, needle: seq<char>, i: int)
  {
    0 <= i && i + |needle| <= |s| && s[i..i + |needle|] == needle
  }

  /** strstr: the first position where `needle` occurs in s, searching from `from`. */
  function FindFrom(s: seq<char>, needle: seq<char>, from: nat): (r: Option<nat>)
    ensures r.Some? ==> from <= r.value && OccursAt(s, needle, r.value)
    ensures r.Some? ==> forall j | from <= j < r.value :: !OccursAt(s, needle, j)
    ensures r.None? ==> forall j | from <= j :: !OccursAt(s, needle, j)
    decreases |s| - from
  {
    if from + |needle| > |s| then None
    else if s[from..from + |needle|] == needle then Some(from)
    else FindFrom(s, needle, from + 1)
  }

  /** The first position of `needle` in s. */
  function FindFirst(s: seq<char>, needle: seq<char>): (r: Option<nat>)
    ensures r.Some? ==> OccursAt(s, needle, r.value) && forall j | 0 <= j < r.value :: !OccursAt(s, needle, j)
    ensures r.None? ==> forall j :: !OccursAt(s, needle, j)
  {
    FindFrom(s, needle, 0)
  }

  /** The text of the optional prefix: nothing for NULL. */
  function PrefixText(prefix: Option<seq<char>>): seq<char>
  {
    match prefix
    case None => []
    case Some(p) => p
  }

  /**
   * Lines 12-84 as a value: NULL when readlink fails, when the path holds no
   * "build", or when the result and its NUL would not fit the buffer;
   * otherwise the path up to the first "build", then the prefix, then the
   * file name.
   */
  function FullFilepath(link: Option<seq<char>>, filename: seq<char>, prefix: Option<seq<char>>): Option<seq<char>>
  {
    match link
    case None => None
    case Some(path) =>
      match FindFirst(path, BuildDir)
      case None => None
      case Some(b) =>
        if b + |PrefixText(prefix)| + |filename| + 1 > PathBufferSize then None
        else Some(path[..b] + PrefixText(prefix) + filename)
  }

  // ---------------------------------------------------------------------------
  // Properties of the result

  /** Lines 16-23, 30-33 and 73-81: a failed readlink or a path without "build" gives NULL. */
  lemma NullCases(link: Option<seq<char>>, filename: seq<char>, prefix: Option<seq<char>>)
    ensures link.None? ==> FullFilepath(link, filename, prefix).None?
    ensures link.Some? && (forall j :: !OccursAt(link.value, BuildDir, j)) ==> FullFilepath(link, filename, prefix).None?
  {
  }

  /**
   * Lines 30-69: on success the result is the path before its first
   * "build", the prefix and the file name, and with its NUL it fits the
   * buffer; it fails for a path holding "build" exactly when it would not
   * fit.
   */
  lemma Success(path: seq<char>, b: nat, filename: seq<char>, prefix: Option<seq<char>>)
    requires OccursAt(path, BuildDir, b) && forall j | 0 <= j < b :: !OccursAt(path, BuildDir, j)
    ensures var r := FullFilepath(Some(path), filename, prefix);
      (r.Some? <==> b + |PrefixText(prefix)| + |filename| < PathBufferSize) &&
      (r.Some? ==> r.value == path[..b] + PrefixText(prefix) + filename && |r.value| < PathBufferSize)
  {
  }

  /** Lines 45-49 and 60-66: a NULL prefix contributes nothing, the same as an empty one. */
  lemma NullPrefixIsEmpty(link: Option<seq<char>>, filename: seq<char>)
    ensures FullFilepath(link, filename, None) == FullFilepath(link, filename, Some([]))
  {
  }

  // ---------------------------------------------------------------------------
  // The buffer code

  /** Line 16: readlink copies the path, without a NUL, to the start of the buffer; line 26 adds the NUL. */
  method CopyLink(buf: array<char>, path: seq<char>)
    requires |path| < buf.Length
    modifies buf
    ensures buf[..|path|] == path && buf[|path|] == '\0'
  {
    for i := 0 to |path|
      invariant buf[..i] == path[..i]
    {
      buf[i] := path[i];
    }
    buf[|path|] := '\0';
  }

  /** Whether `needle` occurs in buf at position i, compared character by character. */
  method MatchesAt(buf: array<char>, i: int, needle: seq<char>) returns (m: bool)
    requires 0 <= i && i + |needle| <= buf.Length
    ensures m == (buf[i..i + |needle|] == needle)
  {
    var j := 0;
    while j < |needle| && buf[i + j] == needle[j]
      invariant 0 <= j <= |needle| && buf[i..i + j] == needle[..j]
    {
      j := j + 1;
    }
    m := j == |needle|;
    if !m {
      assert buf[i..i + |needle|][j] != needle[j];
    }
  }

  /** Line 31: strstr over the C string held in buf[..len]: the first occurrence of needle, or -1. */
  method StrStr(buf: array<char>, len: int, needle: seq<char>) returns (r: int)
    requires 0 <= len <= buf.Length
    ensures r == (match FindFirst(buf[..len], needle) case None => -1 case Some(i) => i)
  {
    var i := 0;
    while i + |needle| <= len
      invariant 0 <= i && FindFirst(buf[..len], needle) == FindFrom(buf[..len], needle, i)
      decreases len - i
    {
      var m := MatchesAt(buf, i, needle);
      assert buf[..len][i..i + |needle|] == buf[i..i + |needle|];
      if m {
        return i;
      }
      i := i + 1;
    }
    return -1;
  }

  /** strcpy: s and its NUL are written from position `at`; nothing else changes. */
  method StrCopy(buf: array<char>, at: int, s: seq<char>)
    requires 0 <= at && at + |s| < buf.Length
    modifies buf
    ensures buf[..] == old(buf[..])[..at] + s + ['\0'] + old(buf[..])[at + |s| + 1..]
  {
    for i := 0 to |s|
      invariant buf[..] == old(buf[..])[..at] + s[..i] + old(buf[..])[at + i..]
    {
      buf[at + i] := s[i];
    }
    buf[at + |s|] := '\0';
  }

  /**
   * Lines 12-84: NULL exactly when FullFilepath is NULL; otherwise a fresh
   * buffer of 4096 characters whose C string is FullFilepath's value.
   */
  method GetFullFilepath(link: Option<seq<char>>, filename: seq<char>, prefix: Option<seq<char>>) returns (path: array?<char>)
    requires link.Some? ==> |link.value| <= PathBufferSize - 1 && NoNul(link.value)
    requires NoNul(filename) && NoNul(PrefixText(prefix))
    ensures path == null <==> FullFilepath(link, filename, prefix).None?
    ensures path != null ==>
      fresh(path) && path.Length == PathBufferSize && CString(path[..]) == FullFilepath(link, filename, prefix).value
  {
    var buf := new char[PathBufferSize];
    if link.None? {
      return null;
    }
    var exe := link.value;
    CopyLink(buf, exe);
    var builddir := StrStr(buf, |exe|, BuildDir);
    assert buf[..|exe|] == exe;
    if builddir == -1 {
      return null;
    }
    // The temporary cut after "build" and its repair, both overwritten below or past the NUL.
    buf[builddir + 5] := '\0';
    buf[builddir + 5] := '/';
    var repopathLength := builddir;
    var filenameLength := |filename|;
    var prefixLength := 0;
    if prefix.Some? {
      prefixLength := |prefix.value|;
    }
    if repopathLength + prefixLength + filenameLength + 1 > PathBufferSize {
      return null;
    }
    assert buf[..builddir] == exe[..builddir];
    AppendNames(buf, builddir, prefix, filename);
    path := buf;
  }

  /** Lines 58-69: the prefix, when there is one, and then the file name are copied in from position `at`. */
  method AppendNames(buf: array<char>, at: int, prefix: Option<seq<char>>, filename: seq<char>)
    requires 0 <= at && at + |PrefixText(prefix)| + |filename| < buf.Length
    requires NoNul(buf[..at]) && NoNul(filename) && NoNul(PrefixText(prefix))
    modifies buf
    ensures CString(buf[..]) == old(buf[..at]) + PrefixText(prefix) + filename
  {
    ghost var head := buf[..at];
    var end := at;
    if prefix.Some? {
      StrCopy(buf, end, prefix.value);
      end := end + |prefix.value|;
    }
    assert buf[..end] == head + PrefixText(prefix);
    StrCopy(buf, end, filename);
    ghost var s := head + PrefixText(prefix) + filename;
    assert buf[..end + |filename|] == s;
    assert NoNul(s) by {
      forall i | 0 <= i < |s|
        ensures s[i] != '\0'
      {
        if i < |head| {
          assert s[i] == head[i];
        } else if i < |head| + |PrefixText(prefix)| {
          assert s[i] == PrefixText(prefix)[i - |head|];
        } else {
          assert s[i] == filename[i - |head| - |PrefixText(prefix)|];
        }
      }
    }
    CStringOf(buf[..], s);
  }
}
