/** The output file name of `process_video` (lines 83-84): `os.path.splitext` cuts the
    input path into a base and an extension, and `_timestamp` goes between them.
    `splitext` is the POSIX one: `/` separates components and `.` starts an extension. */
module OutputPath {
  import opened Strings

  const Suffix: string := "_timestamp"

  predicate AllDots(s: string) {
    forall i :: 0 <= i < |s| ==> s[i] == '.'
  }

  /** The final component of a path: what follows its last `/`. */
  function LastComponent(p: string): (c: string)
    ensures '/' !in c
    ensures |c| <= |p| && c == p[|p| - |c|..]
    ensures |c| == |p| || p[|p| - |c| - 1] == '/'
  {
    p[RFind(p, '/') + 1..]
  }

  /** `os.path.splitext(p)`: the extension starts at the last `.` when that dot lies in
      the final component and is not one of its leading dots; otherwise it is empty. */
  function SplitExt(p: string): (r: (string, string))
    ensures r.0 + r.1 == p
  {
    var sep := RFind(p, '/');
    var dot := RFind(p, '.');
    if dot > sep && !AllDots(p[sep + 1..dot]) then (p[..dot], p[dot..]) else (p, "")
  }

  /** A proper extension: a dot and then no further dot or separator. */
  predicate IsExtension(ext: string) {
    |ext| >= 1 && ext[0] == '.' && '.' !in ext[1..] && '/' !in ext
  }

  /** Line 84: `f"{base}_timestamp{ext}"`. */
  function TimestampedPath(p: string): (out: string)
    ensures |out| == |p| + |Suffix|
  {
    SplitExtShape(p);
    var (base, ext) := SplitExt(p);
    base + Suffix + ext
  }

  /** What `splitext` returns: the pieces put back together give the path; the extension
      is empty or is a dot with no dot or separator after it, and it never starts at a
      leading dot of the final component (so `.bashrc` has no extension). */
  lemma SplitExtShape(p: string)
    ensures SplitExt(p).0 + SplitExt(p).1 == p
    ensures var (base, ext) := SplitExt(p);
      ext == "" || (IsExtension(ext) && !AllDots(LastComponent(base)))
  {
    var sep := RFind(p, '/');
    var dot := RFind(p, '.');
    if dot > sep && !AllDots(p[sep + 1..dot]) {
      var base, ext := p[..dot], p[dot..];
      assert SplitExt(p) == (base, ext);
      assert base + ext == p;
      ExtensionAtLastDot(p, sep, dot);
      assert LastComponent(base) == p[sep + 1..dot] by {
        RFindPrefix(p, dot, '/');
      }
    } else {
      assert SplitExt(p) == (p, "");
      assert p + "" == p;
    }
  }

  /** From the last `.`, past the last `/`, to the end is a proper extension. */
  lemma ExtensionAtLastDot(p: string, sep: int, dot: int)
    requires -1 <= sep < dot < |p| && p[dot] == '.'
    requires forall k :: dot < k < |p| ==> p[k] != '.'
    requires forall k :: sep < k < |p| ==> p[k] != '/'
    ensures IsExtension(p[dot..])
  {
    var ext := p[dot..];
    assert '.' !in ext[1..] by {
      forall k | 0 <= k < |ext| - 1
        ensures ext[1..][k] != '.'
      {
        assert ext[1..][k] == p[dot + 1 + k];
      }
    }
    assert '/' !in ext by {
      forall k | 0 <= k < |ext|
        ensures ext[k] != '/'
      {
        assert ext[k] == p[dot + k];
      }
    }
  }

  /** `rfind` in a prefix that still holds the last occurrence. */
  lemma RFindPrefix(p: string, n: nat, c: char)
    requires RFind(p, c) < n <= |p|
    ensures RFind(p[..n], c) == RFind(p, c)
  {
    assert p == p[..n] + p[n..];
    assert c !in p[n..] by {
      forall k | 0 <= k < |p[n..]|
        ensures p[n..][k] != c
      {
        assert p[n..][k] == p[n + k];
      }
    }
    RFindAppend(p[..n], p[n..], c);
  }

  /** The reference direction: a base whose final component is not all dots, followed by
      a proper extension, is cut exactly there. */
  lemma SplitExtOf(base: string, ext: string)
    requires IsExtension(ext) && !AllDots(LastComponent(base))
    ensures SplitExt(base + ext) == (base, ext)
  {
    var p := base + ext;
    RFindAppend(base, ext, '/');
    RFindAppend(base, ext, '.');
    assert RFind(ext, '.') == 0 by {
      assert forall k :: 1 <= k < |ext| ==> ext[k] == ext[1..][k - 1];
    }
    assert p[..|base|] == base && p[|base|..] == ext;
    assert p[RFind(base, '/') + 1..|base|] == LastComponent(base);
  }

  /** A name without an extension keeps none when more non-dot, non-separator text is
      appended. */
  lemma SplitExtNoneAppend(p: string, s: string)
    requires SplitExt(p).1 == ""
    requires '.' !in s && '/' !in s
    ensures SplitExt(p + s) == (p + s, "")
  {
    var q := p + s;
    var sep := RFind(p, '/');
    var dot := RFind(p, '.');
    assert RFind(q, '/') == sep by { RFindAppend(p, s, '/'); }
    assert RFind(q, '.') == dot by { RFindAppend(p, s, '.'); }
    assert dot > sep ==> AllDots(p[sep + 1..dot]);
    if dot > sep {
      assert q[sep + 1..dot] == p[sep + 1..dot];
    }
  }

  /** The output path has the input's base, then `_timestamp`, then the input's extension;
      its own extension is the input's (a `.mp4` stays a `.mp4`), and it is never the
      input path itself. */
  lemma TimestampedPathKeepsExtension(p: string)
    ensures TimestampedPath(p) == SplitExt(p).0 + Suffix + SplitExt(p).1
    ensures SplitExt(TimestampedPath(p)).1 == SplitExt(p).1
    ensures TimestampedPath(p) != p
  {
    var (base, ext) := SplitExt(p);
    SplitExtShape(p);
    if ext == "" {
      assert base == p;
      assert TimestampedPath(p) == p + Suffix;
      SplitExtNoneAppend(p, Suffix);
    } else {
      SuffixBeforeExtension(base, ext);
    }
  }

  /** `_timestamp` put before a proper extension leaves the extension where it was. */
  lemma SuffixBeforeExtension(base: string, ext: string)
    requires IsExtension(ext)
    ensures SplitExt(base + Suffix + ext) == (base + Suffix, ext)
  {
    var b2 := base + Suffix;
    var c := LastComponent(b2);
    assert c == LastComponent(base) + Suffix by {
      RFindAppend(base, Suffix, '/');
    }
    assert c[|c| - 1] == 'p';
    SplitExtOf(b2, ext);
  }
}
