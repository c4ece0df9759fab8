/**
 The string library calls the extractor and the rename layer lean on:
 `str.rfind`, `str.split`, `os.path.splitext` (POSIX) and `pathlib.PurePath.suffix`.
 */
module PathNames {

  /** `s.rfind(c)`: index of the last `c` in `s`, or -1. */
  function RFind(s: string, c: char): (r: int)
    ensures -1 <= r < |s|
    ensures r >= 0 ==> s[r] == c
    ensures forall k :: r < k < |s| ==> s[k] != c
  {
    if s == [] then -1
    else if s[|s| - 1] == c then |s| - 1
    else RFind(s[..|s| - 1], c)
  }

  /** `os.path.splitext(p)[0]`: the extension starts at the last `.` after the last
      `/`, provided a character other than `.` precedes it in that component. */
  function Stem(p: string): (stem: string)
    ensures |stem| <= |p| && stem == p[..|stem|]
    ensures |stem| < |p| ==>
      && p[|stem|] == '.'
      && (forall k :: |stem| < k < |p| ==> p[k] != '.' && p[k] != '/')
      && (exists k :: 0 <= k < |stem| && p[k] != '.' && p[k] != '/' && forall j :: k < j < |stem| ==> p[j] != '/')
    ensures |stem| == |p| ==>
      forall d :: 0 <= d < |p| && p[d] == '.' && (forall j :: d < j < |p| ==> p[j] != '/') ==>
        forall k :: 0 <= k < d && (forall j :: k < j < d ==> p[j] != '/') ==> p[k] == '.' || p[k] == '/'
  {
    var sepIndex := RFind(p, '/');
    var dotIndex := RFind(p, '.');
    if dotIndex > sepIndex && exists k :: sepIndex < k < dotIndex && p[k] != '.' then p[..dotIndex]
    else p
  }

  /** `pathlib.PurePath(name).suffix` for a single path component: from the last
      `.` on, unless that dot is the first or the last character. */
  function Suffix(name: string): (ext: string)
    ensures |ext| <= |name| && ext == name[|name| - |ext|..]
    ensures ext != [] ==> |ext| >= 2 && ext[0] == '.' && |ext| < |name|
    ensures forall k :: 0 < k < |ext| ==> ext[k] != '.'
    ensures ext != [] <==> exists i :: 0 < i < |name| - 1 && name[i] == '.' && forall k :: i < k < |name| ==> name[k] != '.'
  {
    var i := RFind(name, '.');
    if 0 < i < |name| - 1 then name[i..] else ""
  }

  /** `sep.join(parts)` for a one-character separator. */
  function Join(parts: seq<string>, sep: char): (s: string)
    requires |parts| >= 1
  {
    if |parts| == 1 then parts[0]
    else Join(parts[..|parts| - 1], sep) + [sep] + parts[|parts| - 1]
  }

  /** Every character of a piece is in the joined string. */
  lemma {:induction false} JoinKeepsChars(parts: seq<string>, sep: char, k: nat, j: nat)
    requires k < |parts| && j < |parts[k]|
    ensures parts[k][j] in Join(parts, sep)
    decreases |parts|
  {
    if |parts| > 1 {
      var init := parts[..|parts| - 1];
      if k < |parts| - 1 {
        JoinKeepsChars(init, sep, k, j);
        assert init[k] == parts[k];
      } else {
        var w := Join(init, sep) + [sep];
        assert Join(parts, sep)[|w| + j] == parts[k][j];
      }
    }
  }

  /** `s.split(sep)` for a one-character separator: the pieces between the
      separators, empty pieces included. */
  function Split(s: string, sep: char): (parts: seq<string>)
    ensures |parts| >= 1
    ensures forall k :: 0 <= k < |parts| ==> sep !in parts[k]
    ensures Join(parts, sep) == s
  {
    if s == [] then [""]
    else
      var init := Split(s[..|s| - 1], sep);
      var last := s[|s| - 1];
      assert s == s[..|s| - 1] + [last];
      if last == sep then init + [""]
      else
        var n := |init| - 1;
        var parts := init[..n] + [init[n] + [last]];
        assert parts[..n] == init[..n];
        parts
  }

  /** Text without the separator splits into itself alone. */
  lemma {:induction false} SplitNone(s: string, sep: char)
    requires sep !in s
    ensures Split(s, sep) == [s]
    decreases |s|
  {
    if s != [] {
      assert s[..|s| - 1] + [s[|s| - 1]] == s;
      SplitNone(s[..|s| - 1], sep);
    }
  }

  /** One separator splits the text into the part before it and the part after it. */
  lemma {:induction false} SplitOnce(a: string, sep: char, b: string)
    requires sep !in a && sep !in b
    ensures Split(a + [sep] + b, sep) == [a, b]
    decreases |b|
  {
    var s := a + [sep] + b;
    if b == [] {
      assert s[..|s| - 1] == a;
      SplitNone(a, sep);
    } else {
      var b' := b[..|b| - 1];
      assert s[..|s| - 1] == a + [sep] + b';
      assert b' + [b[|b| - 1]] == b;
      SplitOnce(a, sep, b');
    }
  }
}
