/** The string and path helpers of Python that the handler relies on:
    `str.rfind`, `str.endswith`, the `in` test for substrings, and the POSIX
    flavour of `os.path.basename`, `os.path.splitext` and `os.path.join`. */
module PathOps {

  /** Index of the last occurrence of `ch` in `s`, or -1 when there is none
      (Python's `s.rfind(ch)` for a one-character needle). */
  function RFind(s: string, ch: char): (r: int)
    ensures -1 <= r < |s|
    ensures r >= 0 ==> s[r] == ch
    ensures forall k :: r < k < |s| ==> s[k] != ch
    decreases |s|
  {
    if s == [] then -1
    else if s[|s| - 1] == ch then |s| - 1
    else RFind(s[..|s| - 1], ch)
  }

  predicate StartsWith(s: string, prefix: string) {
    |prefix| <= |s| && s[..|prefix|] == prefix
  }

  /** Python's `s.endswith(suffix)`: a case-sensitive comparison of the tail. */
  predicate EndsWith(s: string, suffix: string) {
    |suffix| <= |s| && s[|s| - |suffix|..] == suffix
  }

  /** `needle` occurs in `s` starting at index `i`. */
  predicate OccursAt(s: string, needle: string, i: int) {
    0 <= i <= |s| - |needle| && s[i..i + |needle|] == needle
  }

  /** Python's `needle in s` for two strings: true exactly when `needle`
      occurs somewhere in `s`. */
  function Contains(s: string, needle: string): (r: bool)
    ensures r <==> exists i :: OccursAt(s, needle, i)
    decreases |s|
  {
    if StartsWith(s, needle) then
      assert OccursAt(s, needle, 0);
      true
    else if s == [] then
      false
    else
      var rest := Contains(s[1..], needle);
      assert forall i :: OccursAt(s[1..], needle, i) <==> OccursAt(s, needle, i + 1) by {
        forall i ensures OccursAt(s[1..], needle, i) <==> OccursAt(s, needle, i + 1) {
          if 0 <= i <= |s| - 1 - |needle| {
            assert s[1..][i..i + |needle|] == s[i + 1..i + 1 + |needle|];
          }
        }
      }
      assert !OccursAt(s, needle, 0);
      assert (exists i :: OccursAt(s, needle, i)) ==> exists i :: OccursAt(s[1..], needle, i) by {
        if exists i :: OccursAt(s, needle, i) {
          var i :| OccursAt(s, needle, i);
          assert OccursAt(s[1..], needle, i - 1);
        }
      }
      rest
  }

  /** `posixpath.basename`: everything after the last '/'. The result is the
      longest suffix of `p` that holds no '/'. */
  function Basename(p: string): (r: string)
    ensures '/' !in r
    ensures |r| <= |p| && p[|p| - |r|..] == r
    ensures |r| == |p| || p[|p| - |r| - 1] == '/'
  {
    var i := RFind(p, '/') + 1;
    assert forall k :: 0 <= k < |p[i..]| ==> p[i..][k] == p[i + k];
    p[i..]
  }

  predicate AllDots(s: string) {
    forall i :: 0 <= i < |s| ==> s[i] == '.'
  }

  /** A file extension as `splitext` returns it: a dot followed by neither
      another dot nor a '/'. */
  predicate IsExtension(ext: string) {
    |ext| > 0 && ext[0] == '.' && '/' !in ext && '.' !in ext[1..]
  }

  /** `posixpath.splitext`: splits `p` at its last '.' when that dot lies in the
      final path component and is preceded there by something other than dots
      (so a leading dot, as in ".bashrc", does not start an extension). The
      root and the extension always concatenate back to `p`; a non-empty
      extension is a dot followed by neither '.' nor '/'. */
  function SplitExt(p: string): (r: (string, string))
    ensures r.0 + r.1 == p
    ensures r.1 == [] || IsExtension(r.1)
  {
    var sepIndex := RFind(p, '/');
    var dotIndex := RFind(p, '.');
    if dotIndex > sepIndex && !AllDots(p[sepIndex + 1..dotIndex]) then
      TailAfterLastDot(p, sepIndex, dotIndex);
      (p[..dotIndex], p[dotIndex..])
    else
      (p, [])
  }

  /** The tail from the last '.' on, when that dot follows the last '/', is a
      dot followed by neither '.' nor '/'. */
  lemma TailAfterLastDot(p: string, sepIndex: int, dotIndex: int)
    requires 0 <= dotIndex < |p| && p[dotIndex] == '.'
    requires -1 <= sepIndex < dotIndex
    requires forall k :: sepIndex < k < |p| ==> p[k] != '/'
    requires forall k :: dotIndex < k < |p| ==> p[k] != '.'
    ensures p[..dotIndex] + p[dotIndex..] == p
    ensures IsExtension(p[dotIndex..])
  {
    var ext := p[dotIndex..];
    assert forall k :: 0 <= k < |ext| ==> ext[k] == p[dotIndex + k];
  }

  /** `posixpath.join(a, b)` for two components: an absolute `b` replaces `a`;
      otherwise `b` is appended, with a '/' in between unless `a` is empty or
      already ends in '/'. */
  function Join(a: string, b: string): (r: string)
    ensures StartsWith(b, "/") ==> r == b
    ensures !StartsWith(b, "/") ==> StartsWith(r, a) && EndsWith(r, b)
    ensures !StartsWith(b, "/") ==> r == a + b || r == a + "/" + b
    ensures !StartsWith(b, "/") ==> (r == a + b <==> a == [] || a[|a| - 1] == '/')
  {
    if StartsWith(b, "/") then b
    else if a == [] || a[|a| - 1] == '/' then a + b
    else a + "/" + b
  }

  /** Searching for a character that `tail` does not hold finds the same index
      in `head + tail` as in `head`. */
  lemma {:induction false} RFindSkipsTail(head: string, tail: string, ch: char)
    requires ch !in tail
    ensures RFind(head + tail, ch) == RFind(head, ch)
    decreases |tail|
  {
    if tail == [] {
      assert head + tail == head;
    } else {
      var s := head + tail;
      assert s[|s| - 1] == tail[|tail| - 1];
      assert s[..|s| - 1] == head + tail[..|tail| - 1];
      RFindSkipsTail(head, tail[..|tail| - 1], ch);
    }
  }

  /** A string without '/' is its own base name. */
  lemma BasenameOfName(name: string)
    requires '/' !in name
    ensures Basename(name) == name
  {
  }

  /** Joining a single file name onto a folder yields a path whose base name is
      that file name, whatever the folder. */
  lemma {:induction false} BasenameOfJoin(folder: string, name: string)
    requires '/' !in name
    ensures Basename(Join(folder, name)) == name
    ensures var r := Join(folder, name); StartsWith(r, folder) && (r == folder + name || r == folder + "/" + name)
  {
    assert !StartsWith(name, "/") by {
      if |name| > 0 { assert name[0] in name; }
    }
    var head := if folder == [] || folder[|folder| - 1] == '/' then folder else folder + "/";
    var r := head + name;
    assert Join(folder, name) == r;
    assert r[..|folder|] == folder;
    RFindSkipsTail(head, name, '/');
    assert RFind(head, '/') == |head| - 1;
    assert r[|head|..] == name;
  }

  /** A name whose only dots before the extension are leading ones, as in
      ".png" or "..png", has no extension: the leading dots do not start one. */
  lemma {:induction false} SplitExtOfLeadingDots(dots: string, ext: string)
    requires AllDots(dots) && '/' !in ext && '.' !in ext
    ensures SplitExt(dots + "." + ext) == (dots + "." + ext, "")
  {
    var head := dots + ".";
    var p := head + ext;
    assert dots + "." + ext == p;
    RFindSkipsTail(head, ext, '.');
    RFindSkipsTail(head, ext, '/');
    assert RFind(head, '.') == |dots|;
    assert '/' !in head by {
      assert forall i :: 0 <= i < |head| ==> head[i] == '.';
    }
    assert RFind(head, '/') == -1;
    assert p[0..|dots|] == dots;
  }

  /** Splitting "stem.ext" where the stem holds something other than dots and
      the extension holds no further dot gives back the two parts. */
  lemma {:induction false} SplitExtOfNamePlusExt(stem: string, ext: string)
    requires '/' !in stem && !AllDots(stem)
    requires '/' !in ext && '.' !in ext
    ensures SplitExt(stem + "." + ext) == (stem, "." + ext)
  {
    var p := stem + "." + ext;
    assert p == (stem + ".") + ext;
    RFindSkipsTail(stem + ".", ext, '.');
    RFindSkipsTail(stem + ".", ext, '/');
    BasenameOfName(stem);
    assert RFind(stem + ".", '.') == |stem|;
    assert RFind(stem + ".", '/') == RFind(stem, '/') by {
      assert (stem + ".")[..|stem|] == stem;
    }
    assert RFind(p, '/') == -1;
    assert p[0..|stem|] == stem;
    assert p[..|stem|] == stem && p[|stem|..] == "." + ext;
  }
}
