# pathext in Dafny

A model of the `pathext` crate: the extension trait `PathExt`, which gives
every value that converts to a path (`&str`, `Path`, `PathBuf`, ...) three
predicates:

- `contains(pattern)`: the pattern occurs somewhere in the path's text form;
- `starts_or_ends_with(pattern)`: the pattern is a prefix or a suffix of the
  text form;
- `has_component(component)`: the query equals one of the path's components
  exactly.

A path is modelled as `PathExt.Path(text, components)`. `text` is what
`Path::to_str` yields: `Some(s)` for a path whose bytes are valid UTF-8 and
`None` otherwise. `components` is what `Path::components` yields, seen through
`Component::as_os_str`. The two text predicates map over `text` and compare the
outcome with `Some(true)`, so a path without a text form matches nothing and no
call can fail. `has_component` reads only `components`, so it works on paths
that have no text form.

The three predicates are total functions (`PathExt.Contains`,
`PathExt.StartsOrEndsWith`, `PathExt.HasComponent`). Each one runs an
executable scan: `Strings.Contains`, `Strings.StartsWith`, `Strings.EndsWith`
and `PathExt.Any`. Each contract ties the result to an independent
declarative definition, `Strings.IsSubstring`, `Strings.IsPrefix`,
`Strings.IsSuffix` or an existential over the component sequence.

Paths built from a `&str` (`PathExt.FromStr`) get their components from
`Components.Split`, a simplified Unix version of `Path::components`:

- the text is split on `'/'`;
- a leading `'/'` gives the root component `"/"`;
- a leading `"."` segment gives the current-directory component `"."`;
- every other empty or `"."` segment is dropped.

Lemmas relate the splitter to the text. Every component occurs in the text.
Only the root holds a separator. A name is a component exactly when it is one
of the text's segments, for any text. `"."` is a component exactly when the
text is `"."` or starts with `"./"`. Splitting a text joined from plain names gives
those names back, with or without one trailing separator.

The test vectors and documentation examples of `src/lib.rs` are lemmas in
`PathExtTests`. Among them are the two separations the tests exhibit:

- `contains` versus `starts_or_ends_with`: a name in the middle of the path;
- `contains` versus `has_component`: a run of two names.

## Model

| member | source | states |
|---|---|---|
| PathExt.Contains | src/lib.rs:26-28 | true exactly when the path has a text form and the pattern occurs in it as a contiguous substring; false for every pattern when there is no text form |
| PathExt.HasComponent | src/lib.rs:30-34 | true exactly when some component equals the query; the text form plays no part, so it is defined when `to_str` fails |
| PathExt.StartsOrEndsWith | src/lib.rs:36-41 | true exactly when the path has a text form and the pattern is a prefix of it or a suffix of it, compared character by character; false when there is no text form |
| PathExt.Any | src/lib.rs:31-33 | the short-circuiting `any` over the components is true exactly when some element satisfies the predicate |
| Strings.Contains | src/lib.rs:27 | the forward search for the pattern succeeds exactly when the pattern occurs at some index of the text (the empty pattern always does) |
| Strings.StartsWith | src/lib.rs:39 | the character-by-character head comparison succeeds exactly when the pattern is a prefix of the text |
| Strings.EndsWith | src/lib.rs:39 | the character-by-character tail comparison succeeds exactly when the pattern is a suffix of the text |
| Strings.SubstringOfTail | src/lib.rs:27 | when the pattern does not start the text, it occurs in the text exactly when it occurs after the first character (the step of the search) |
| PathExt.StartsOrEndsWithImpliesContains | src/lib.rs:36-41 | whatever starts or ends a path is contained in it |
| PathExt.EmptyPattern | src/lib.rs:26-28 | the empty pattern is contained in, and starts, every path that has a text form, and no other path |
| PathExt.HasComponentImpliesContains | src/lib.rs:30-34 | for a path made from text, every component it has is also contained in its text |
| PathExt.SeparatorQueryIsNoComponent | src/lib.rs:30-34 | a query that holds a `'/'` and is not the root `"/"` is never a component of a path made from text |
| PathExt.EmptyAndRootQueries | src/lib.rs:30-34 | the empty query is never a component; `"/"` is a component exactly when the text starts with `'/'` |
| PathExt.FromStr | src/lib.rs:66-68 | a path made from a `&str` (`Path::new`, `PathBuf::from`) gives its text back through `to_str`, and each of its components is a non-empty piece of that text |
| Components.Split | src/lib.rs:32 | no component is empty, and the first component is the root `"/"` exactly when the text starts with `'/'` |
| PathExt.NameIsComponentIffSegment | src/lib.rs:30-34 | for a path made from text, a name that is non-empty, not `"."` and free of `'/'` is a component exactly when it is one of the text's `'/'`-separated segments, whatever repeated separators or `"."` segments surround it |
| PathExt.CurDirQuery | src/lib.rs:30-34 | for a path made from text, `"."` is a component exactly when the text is `"."` or starts with `"./"`: the current directory counts only at the head of a relative path |
| Components.CurDirComponent | src/lib.rs:32 | the splitter keeps `"."` exactly when it is the leading segment of a relative text, and drops every other `"."` |
| Components.SegmentIsComponent | src/lib.rs:32 | every segment of any text that is neither empty nor `"."` is a component |
| Components.ComponentIsSegment | src/lib.rs:32 | every component other than the root and `"."` is one of the text's segments |
| Components.SplitShape | src/lib.rs:32 | every component is non-empty and occurs in the text; `"/"` is a component only in first place and only for a text that starts with `'/'`; no other component holds a separator |
| Components.SplitJoinRelative | src/lib.rs:32 | splitting names joined by `'/'` gives the names back, also with one trailing `'/'` |
| Components.SplitJoinAbsolute | src/lib.rs:32 | splitting `'/'` followed by joined names gives the root then the names, also with one trailing `'/'` |
| Components.SeparatorFreeOccursInName | src/lib.rs:59 | a pattern without `'/'` that occurs in joined names occurs inside one of the names |
| PathExtTests.SomeplaceComponents | src/lib.rs:77 | the components of `/opt/somewhere/someplace/` are the root, `opt`, `somewhere` and `someplace` |
| PathExtTests.NoRoot | src/lib.rs:59 | `root` does not occur in `/opt/somewhere/someplace/somehow/` |
| PathExtTests.ContainsVectors | src/lib.rs:50-72 | the six `contains` vectors: `opt`, `/opt`, `somewhere`, `/someplace/somehow` and `someplace/somehow/` are contained, `root` is not |
| PathExtTests.HasComponentVectors | src/lib.rs:75-95 | the four `has_component` vectors: `opt` and `somewhere` are components, `someplace/` and `root` are not |
| PathExtTests.StartsOrEndsWithVectors | src/lib.rs:98-120 | the six `starts_or_ends_with` vectors: `/opt` starts the path and `someplace/somehow/` ends it; `opt`, `somewhere`, `someplace/somehow` (without the final `'/'`) and `root` do neither |
| PathExtTests.ContainedButNotAtEitherEnd | src/lib.rs:102-104 | `opt` and `somewhere` are contained in the test path but neither start nor end it, so `contains` does not imply `starts_or_ends_with` |
| PathExtTests.ContainedButNoComponent | src/lib.rs:57 | `/someplace/somehow` is contained in the test path but is not a component of it, so `contains` does not imply `has_component` |
| PathExtTests.DocExamples | src/lib.rs:11-13 | `/some/path` has the component `path` and contains `some`; `/this/and/that/` starts or ends with `/` |

## Left out

- The blanket `impl<T: AsRef<Path>>` (src/lib.rs:25): there is one path value instead of one per type. The tests check that `&str`, `Path` and `PathBuf` agree; here all three are `FromStr` of the same text.
- How `to_str` decides that a path is valid UTF-8: the text form is an abstract `Option<string>`, and a path made from a `&str` always has one.
- `Path::components` belongs to the standard library and is not part of this model. `Components.Split` keeps only the Unix rules above. It has no Windows prefixes or drive letters. `".."` is kept as a plain name rather than a parent-directory marker. Comparison is on characters, not on `OsStr` bytes.
- Text is a sequence of Unicode characters, not UTF-8 bytes. For valid UTF-8, substring, prefix and suffix tests give the same answers either way.
- `str::contains` uses a faster search algorithm than the forward scan modelled here. Only its result is modelled.
- Extension matching, extension stripping and conditional prefix stripping are not operations of `src/lib.rs`: the trait declares only the three methods above (src/lib.rs:15-22). They are not modelled.
