/** A simplified Unix version of `Path::components`: the text is split on `'/'`,
    a leading `'/'` yields the root component `"/"`, a leading `"."` segment
    yields the current-directory component `"."`, and every other empty or `"."`
    segment is dropped. `".."` and every other segment stay as they are. */
module Components {
  import opened Strings

  const Separator: char := '/'
  const Root: string := "/"
  const CurDir: string := "."

  /** The end of the segment that starts at `i`: the next separator, or the end
      of the text. */
  function SegmentEnd(s: string, i: nat): (k: nat)
    requires i <= |s|
    ensures i <= k <= |s|
    ensures forall j :: i <= j < k ==> s[j] != Separator
    ensures k < |s| ==> s[k] == Separator
    decreases |s| - i
  {
    if i == |s| || s[i] == Separator then i else SegmentEnd(s, i + 1)
  }

  /** The separator-delimited pieces of `s[i..]`, empty pieces included. */
  function SegmentsFrom(s: string, i: nat): (segs: seq<string>)
    requires i <= |s|
    ensures |segs| > 0
    decreases |s| - i
  {
    var k := SegmentEnd(s, i);
    if k == |s| then [s[i..k]] else [s[i..k]] + SegmentsFrom(s, k + 1)
  }

  /** The separator-delimited pieces of the whole text, after the leading
      separator of an absolute text. */
  ghost function Segments(s: string): seq<string> {
    SegmentsFrom(s, if |s| > 0 && s[0] == Separator then 1 else 0)
  }

  /** Drops the pieces that do not name a component: empty ones (from repeated or
      trailing separators) and `"."`. */
  function Normals(segs: seq<string>): (cs: seq<string>)
  {
    if segs == [] then []
    else if segs[0] == "" || segs[0] == CurDir then Normals(segs[1..])
    else [segs[0]] + Normals(segs[1..])
  }

  /** The component sequence of the path whose text is `s`: no component is
      empty, and the first one is the root exactly when the text starts with a
      separator. */
  function Split(s: string): (cs: seq<string>)
    ensures forall c <- cs :: c != ""
    ensures (|cs| > 0 && cs[0] == Root) <==> (|s| > 0 && s[0] == Separator)
  {
    if |s| > 0 && s[0] == Separator then
      var rest := Normals(SegmentsFrom(s, 1));
      assert forall c <- rest :: c != "" by {
        NormalsAreKept(SegmentsFrom(s, 1));
      }
      [Root] + rest
    else
      var segs := SegmentsFrom(s, 0);
      var cs := if segs[0] == CurDir then [CurDir] + Normals(segs[1..]) else Normals(segs);
      assert forall c <- cs :: c != "" && c != Root by {
        SegmentsArePieces(s, 0);
        NormalsAreKept(segs);
        NormalsAreKept(segs[1..]);
        assert forall c <- segs[1..] :: c in segs;
        assert Separator in Root;
      }
      assert |cs| > 0 ==> cs[0] in cs;
      cs
  }

  /** A piece that can stand as a component: something between separators. */
  ghost predicate IsPiece(s: string, c: string) {
    IsSubstring(c, s) && Separator !in c
  }

  lemma {:induction false} SegmentsArePieces(s: string, i: nat)
    requires i <= |s|
    ensures forall c <- SegmentsFrom(s, i) :: IsPiece(s, c)
    decreases |s| - i
  {
    var k := SegmentEnd(s, i);
    assert OccursAt(s, s[i..k], i);
    if k < |s| {
      SegmentsArePieces(s, k + 1);
    }
  }

  lemma {:induction false} NormalsAreKept(segs: seq<string>)
    ensures forall c <- Normals(segs) :: c in segs && c != "" && c != CurDir
  {
    if segs != [] {
      NormalsAreKept(segs[1..]);
      assert forall c <- segs[1..] :: c in segs;
      assert segs[0] in segs;
    }
  }

  /** Every component is non-empty and occurs in the text. The root `"/"` is the
      only component that holds a separator, and it comes only first, from a
      text that starts with `'/'`. */
  lemma SplitShape(s: string)
    ensures forall c <- Split(s) :: c != "" && IsSubstring(c, s)
    ensures forall i | 0 <= i < |Split(s)| ::
      (Split(s)[i] == Root <==> i == 0 && |s| > 0 && s[0] == Separator)
    ensures forall i | 0 <= i < |Split(s)| && Split(s)[i] != Root :: Separator !in Split(s)[i]
  {
    if |s| > 0 && s[0] == Separator {
      var cs := Normals(SegmentsFrom(s, 1));
      SegmentsArePieces(s, 1);
      NormalsAreKept(SegmentsFrom(s, 1));
      assert OccursAt(s, Root, 0);
      assert Split(s) == [Root] + cs;
      assert forall i | 1 <= i < |Split(s)| :: Split(s)[i] in cs;
    } else {
      var segs := SegmentsFrom(s, 0);
      SegmentsArePieces(s, 0);
      NormalsAreKept(segs);
      NormalsAreKept(segs[1..]);
      assert forall c <- segs[1..] :: c in segs;
      assert forall i | 0 <= i < |Split(s)| :: Split(s)[i] in segs;
      assert Separator in Root;
    }
  }

  /** A segment that is neither empty nor `"."` survives the filtering. */
  lemma {:induction false} NormalKept(segs: seq<string>, c: string)
    requires c in segs && c != "" && c != CurDir
    ensures c in Normals(segs)
  {
    if segs[0] != c {
      assert c in segs[1..];
      NormalKept(segs[1..], c);
    }
  }

  /** Every segment of the text that is neither empty nor `"."` is a component,
      wherever it stands and however many separators or `"."` segments surround
      it. */
  lemma SegmentIsComponent(s: string, c: string)
    requires c != "" && c != CurDir
    requires c in Segments(s)
    ensures c in Split(s)
  {
    if |s| > 0 && s[0] == Separator {
      NormalKept(SegmentsFrom(s, 1), c);
    } else {
      var segs := SegmentsFrom(s, 0);
      if segs[0] != c {
        assert c in segs[1..];
        NormalKept(segs[1..], c);
        NormalKept(segs, c);
      } else {
        NormalKept(segs, c);
      }
    }
  }

  /** `"."` is a component only as the leading segment of a relative text: the
      text is `"."` itself or starts with `"./"`. Every other `"."` is dropped. */
  lemma CurDirComponent(s: string)
    ensures CurDir in Split(s) <==> LeadsWithCurDir(s)
  {
    if |s| > 0 && s[0] == Separator {
      NormalsAreKept(SegmentsFrom(s, 1));
      assert Split(s)[0] == Root;
      assert forall i | 1 <= i < |Split(s)| :: Split(s)[i] in Normals(SegmentsFrom(s, 1));
    } else {
      var segs := SegmentsFrom(s, 0);
      LeadingCurDir(s);
      NormalsAreKept(segs);
      NormalsAreKept(segs[1..]);
      assert forall i | 1 <= i < |Split(s)| :: Split(s)[i] in Normals(segs[1..]) || Split(s)[i] in Normals(segs);
      assert segs[0] != CurDir ==> Split(s) == Normals(segs);
    }
  }

  /** The text is `"."` or starts with `"./"`. */
  predicate LeadsWithCurDir(s: string) {
    |s| >= 1 && s[0] == '.' && (|s| == 1 || s[1] == Separator)
  }

  /** The first segment of a relative text is `"."` exactly when the text is
      `"."` or starts with `"./"`. */
  lemma LeadingCurDir(s: string)
    requires |s| == 0 || s[0] != Separator
    ensures SegmentsFrom(s, 0)[0] == CurDir <==> LeadsWithCurDir(s)
  {
    var k := SegmentEnd(s, 0);
    var first := SegmentsFrom(s, 0)[0];
    assert first == s[..k];
    assert first == CurDir <==> k == 1 && s[0] == '.' by {
      if first == CurDir {
        assert |first| == 1 && first[0] == s[0];
      }
    }
  }

  /** Every component other than the root and `"."` is a segment of the text. */
  lemma ComponentIsSegment(s: string, c: string)
    requires c != Root && c != CurDir && c in Split(s)
    ensures c in Segments(s)
  {
    if |s| > 0 && s[0] == Separator {
      NormalsAreKept(SegmentsFrom(s, 1));
    } else {
      var segs := SegmentsFrom(s, 0);
      NormalsAreKept(segs);
      NormalsAreKept(segs[1..]);
      assert forall d <- segs[1..] :: d in segs;
    }
  }

  /** A name that `Split` keeps as a component of its own. */
  ghost predicate IsNormal(name: string) {
    name != "" && name != CurDir && Separator !in name
  }

  /** The text of `names` written one after another with a separator between
      each two. */
  ghost function Join(names: seq<string>): string {
    if names == [] then ""
    else if |names| == 1 then names[0]
    else names[0] + [Separator] + Join(names[1..])
  }

  /** `SegmentEnd` is determined by where the next separator is. */
  lemma SegmentEndAt(s: string, i: nat, k: nat)
    requires i <= k <= |s|
    requires forall j :: i <= j < k ==> s[j] != Separator
    requires k < |s| ==> s[k] == Separator
    ensures SegmentEnd(s, i) == k
  {
  }

  /** In a text joined from separator-free names, the segment that starts where
      the first name starts ends right after it. */
  lemma FirstSegmentOfJoin(s: string, i: nat, names: seq<string>)
    requires i <= |s| && names != []
    requires forall n <- names :: Separator !in n
    requires s[i..] == Join(names)
    ensures i + |names[0]| <= |s|
    ensures SegmentEnd(s, i) == i + |names[0]| && s[i..i + |names[0]|] == names[0]
    ensures |names| > 1 ==> i + |names[0]| < |s| && s[i + |names[0]| + 1..] == Join(names[1..])
  {
    var k := i + |names[0]|;
    assert names[0] in names;
    assert Join(names)[..|names[0]|] == names[0];
    assert s[i..k] == names[0];
    forall j | i <= j < k ensures s[j] != Separator {
      assert s[j] == names[0][j - i];
    }
    if |names| > 1 {
      assert s[k] == Join(names)[|names[0]|] == Separator;
      assert s[k + 1..] == Join(names)[|names[0]| + 1..] == Join(names[1..]);
    }
    SegmentEndAt(s, i, k);
  }

  lemma {:induction false} SegmentsOfJoin(s: string, i: nat, names: seq<string>)
    requires i <= |s| && names != []
    requires forall n <- names :: Separator !in n
    requires s[i..] == Join(names)
    ensures SegmentsFrom(s, i) == names
    decreases |names|
  {
    FirstSegmentOfJoin(s, i, names);
    if |names| > 1 {
      assert forall n <- names[1..] :: n in names;
      SegmentsOfJoin(s, i + |names[0]| + 1, names[1..]);
    }
  }

  lemma {:induction false} NormalsOfNormal(names: seq<string>)
    requires forall n <- names :: IsNormal(n)
    ensures Normals(names) == names
    ensures Normals(names + [""]) == names
  {
    if names != [] {
      assert names[0] in names;
      assert forall n <- names[1..] :: n in names;
      assert (names + [""])[1..] == names[1..] + [""];
      NormalsOfNormal(names[1..]);
    }
  }

  /** Splitting a relative text written from normal names gives those names
      back; one trailing separator changes nothing. */
  lemma SplitJoinRelative(names: seq<string>)
    requires forall n <- names :: IsNormal(n)
    ensures Split(Join(names)) == names
    ensures names != [] ==> Split(Join(names) + [Separator]) == names
  {
    NormalsOfNormal(names);
    if names == [] {
      assert SegmentsFrom("", 0) == [""];
    } else {
      assert names[0] in names;
      var s := Join(names);
      assert s[0..] == s;
      SegmentsOfJoin(s, 0, names);
      var t := s + [Separator];
      JoinAppendEmpty(names);
      assert t[0..] == Join(names + [""]);
      SegmentsOfJoin(t, 0, names + [""]);
      assert (names + [""])[0] == names[0];
    }
  }

  /** Splitting an absolute text written from normal names gives the root and
      then those names; one trailing separator changes nothing. */
  lemma SplitJoinAbsolute(names: seq<string>)
    requires forall n <- names :: IsNormal(n)
    ensures Split([Separator] + Join(names)) == [Root] + names
    ensures names != [] ==> Split([Separator] + Join(names) + [Separator]) == [Root] + names
  {
    NormalsOfNormal(names);
    var s := [Separator] + Join(names);
    if names == [] {
      assert s == [Separator];
      assert SegmentsFrom(s, 1) == [""];
    } else {
      assert s[1..] == Join(names);
      SegmentsOfJoin(s, 1, names);
      var u := s + [Separator];
      JoinAppendEmpty(names);
      assert u[1..] == Join(names + [""]);
      SegmentsOfJoin(u, 1, names + [""]);
    }
  }

  lemma {:induction false} JoinAppendEmpty(names: seq<string>)
    requires names != []
    ensures Join(names + [""]) == Join(names) + [Separator]
    decreases |names|
  {
    if |names| > 1 {
      assert (names + [""])[1..] == names[1..] + [""];
      JoinAppendEmpty(names[1..]);
    }
  }

  /** A pattern without a separator that occurs in a joined text occurs inside
      one of the joined names: it cannot straddle a separator. */
  lemma {:induction false} SeparatorFreeOccursInName(names: seq<string>, pat: string)
    requires names != [] && Separator !in pat
    requires IsSubstring(pat, Join(names))
    ensures exists n <- names :: IsSubstring(pat, n)
    decreases |names|
  {
    if |names| == 1 {
      assert names[0] in names;
    } else {
      var s, n0, rest := Join(names), names[0], Join(names[1..]);
      assert s == n0 + [Separator] + rest;
      var i: nat :| OccursAt(s, pat, i);
      assert s[|n0|] == Separator;
      assert forall j | i <= j < i + |pat| :: s[j] == pat[j - i];
      if i + |pat| <= |n0| {
        assert s[i..i + |pat|] == n0[i..i + |pat|];
        assert OccursAt(n0, pat, i);
        assert n0 in names;
      } else if i > |n0| {
        assert s[i..i + |pat|] == rest[i - |n0| - 1..i - |n0| - 1 + |pat|];
        assert OccursAt(rest, pat, i - |n0| - 1);
        SeparatorFreeOccursInName(names[1..], pat);
        var n :| n in names[1..] && IsSubstring(pat, n);
        assert n in names;
      } else {
        assert false;
      }
    }
  }
}
