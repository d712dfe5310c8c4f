/** The `PathExt` extension trait: three predicates available on every value
    that converts to a path (`&str`, `Path`, `PathBuf`, ...). A path is seen
    through the two views the trait uses: its text form, which `to_str` yields
    only for valid UTF-8, and its component sequence. */
module PathExt {
  import opened Wrappers
  import opened Strings
  import Components

  datatype Path = Path(text: Option<string>, components: seq<string>)

  /** The path made from a `&str` (`Path::new`, `PathBuf::from`): `to_str` gives
      the text back, and its components, which come from the splitter, are
      non-empty pieces of that text. */
  function FromStr(s: string): (p: Path)
    ensures p.text == Some(s)
    ensures forall c <- p.components :: c != "" && IsSubstring(c, s)
  {
    Components.SplitShape(s);
    Path(Some(s), Components.Split(s))
  }

  /** `Iterator::any`: some element satisfies `pred`. */
  function Any<T>(xs: seq<T>, pred: T -> bool): (r: bool)
    ensures r <==> exists i :: 0 <= i < |xs| && pred(xs[i])
  {
    if xs == [] then false
    else if pred(xs[0]) then true
    else
      var r := Any(xs[1..], pred);
      assert forall i :: 1 <= i < |xs| ==> xs[i] == xs[1..][i - 1];
      r
  }

  /** `contains`: the pattern occurs in the text form. A path without a text form
      contains nothing, not even the empty pattern. */
  function Contains(p: Path, pattern: string): (r: bool)
    ensures r <==> p.text.Some? && IsSubstring(pattern, p.text.value)
  {
    p.text.Map(s => Strings.Contains(s, pattern)) == Some(true)
  }

  /** `has_component`: some component equals the query exactly. Only the
      component sequence is consulted, so a path without a text form can still
      have components. */
  function HasComponent(p: Path, component: string): (r: bool)
    ensures r <==> exists i :: 0 <= i < |p.components| && p.components[i] == component
  {
    Any(p.components, (c: string) => c == component)
  }

  /** `starts_or_ends_with`: the pattern is a prefix or a suffix of the text
      form, compared character by character and not component by component. */
  function StartsOrEndsWith(p: Path, pattern: string): (r: bool)
    ensures r <==> p.text.Some? && (IsPrefix(pattern, p.text.value) || IsSuffix(pattern, p.text.value))
  {
    p.text.Map(s => Strings.StartsWith(s, pattern) || Strings.EndsWith(s, pattern)) == Some(true)
  }

  /** A prefix or a suffix is a substring, so `starts_or_ends_with` implies
      `contains`. */
  lemma StartsOrEndsWithImpliesContains(p: Path, pattern: string)
    requires StartsOrEndsWith(p, pattern)
    ensures Contains(p, pattern)
  {
    var s := p.text.value;
    if IsPrefix(pattern, s) {
      PrefixIsSubstring(pattern, s);
    } else {
      SuffixIsSubstring(pattern, s);
    }
  }

  /** The empty pattern is contained in, starts and ends every path that has a
      text form, and no other. */
  lemma EmptyPattern(p: Path)
    ensures Contains(p, "") <==> p.text.Some?
    ensures StartsOrEndsWith(p, "") <==> p.text.Some?
  {
  }

  /** For a path made from text, every component occurs in that text, so
      `has_component` implies `contains`. */
  lemma HasComponentImpliesContains(s: string, component: string)
    requires HasComponent(FromStr(s), component)
    ensures Contains(FromStr(s), component)
  {
    Components.SplitShape(s);
    var cs := Components.Split(s);
    var i :| 0 <= i < |cs| && cs[i] == component;
    assert cs[i] in cs;
  }

  /** A query holding a separator, other than the root `"/"` itself, is never a
      component of a path made from text, whatever the text contains. */
  lemma SeparatorQueryIsNoComponent(s: string, query: string)
    requires Components.Separator in query && query != Components.Root
    ensures !HasComponent(FromStr(s), query)
  {
    Components.SplitShape(s);
  }

  /** For a path made from text, a name that is neither empty nor `"."` nor
      holds a separator is a component exactly when it stands between
      separators somewhere in the text: repeated separators and `"."` segments
      around it do not hide it. */
  lemma NameIsComponentIffSegment(s: string, name: string)
    requires Components.IsNormal(name)
    ensures HasComponent(FromStr(s), name) <==>
      name in Components.Segments(s)
  {
    var cs := Components.Split(s);
    assert Components.Separator in Components.Root;
    if name in Components.Segments(s) {
      Components.SegmentIsComponent(s, name);
      var i :| 0 <= i < |cs| && cs[i] == name;
    }
    if HasComponent(FromStr(s), name) {
      var i :| 0 <= i < |cs| && cs[i] == name;
      assert name in cs;
      Components.ComponentIsSegment(s, name);
    }
  }

  /** The query `"."` is a component exactly when the text is `"."` or starts
      with `"./"`: the current directory counts only at the head of a relative
      path. */
  lemma CurDirQuery(s: string)
    ensures HasComponent(FromStr(s), Components.CurDir) <==> s == "." || (|s| >= 2 && s[..2] == "./")
  {
    var cs := Components.Split(s);
    Components.CurDirComponent(s);
    assert Components.LeadsWithCurDir(s) <==> s == "." || (|s| >= 2 && s[..2] == "./") by {
      if |s| >= 2 && s[..2] == "./" {
        assert s[0] == s[..2][0] && s[1] == s[..2][1];
      }
    }
    if Components.CurDir in cs {
      var i :| 0 <= i < |cs| && cs[i] == Components.CurDir;
    }
    if HasComponent(FromStr(s), Components.CurDir) {
      var i :| 0 <= i < |cs| && cs[i] == Components.CurDir;
      assert cs[i] in cs;
    }
  }

  /** The empty query is never a component; the root `"/"` is a component exactly
      when the text starts with a separator. */
  lemma EmptyAndRootQueries(s: string)
    ensures !HasComponent(FromStr(s), "")
    ensures HasComponent(FromStr(s), Components.Root) <==> |s| > 0 && s[0] == Components.Separator
  {
    Components.SplitShape(s);
    var cs := Components.Split(s);
    if |s| > 0 && s[0] == Components.Separator {
      assert cs[0] == Components.Root;
    }
    assert forall i | 0 <= i < |cs| :: cs[i] in cs;
  }
}
