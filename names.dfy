/**
 * Text utilities of the registry: the name normalisation used by the fuzzy
 * matcher (`normalize_name`), ASCII lower-casing, substring containment
 * (`str::contains`), whitespace trimming (`str::trim`), splitting on a
 * separator character (`str::split`) and the last path component
 * (`Path::file_name`).
 */
module Names {
  import opened Wrappers

  // ---------------------------------------------------------------------
  // Characters
  // ---------------------------------------------------------------------

  /** An ASCII upper-case letter. */
  predicate IsUpper(c: char) {
    'A' <= c <= 'Z'
  }

  /** An ASCII letter or digit (`char::is_alphanumeric`, restricted to ASCII). */
  predicate IsAlnum(c: char) {
    'a' <= c <= 'z' || 'A' <= c <= 'Z' || '0' <= c <= '9'
  }

  /** A character with the Unicode White_Space property (`char::is_whitespace`). */
  predicate IsWhitespace(c: char) {
    || '\t' <= c <= '\r'
    || c == ' '
    || c == '\U{85}'
    || c == '\U{A0}'
    || c == '\U{1680}'
    || '\U{2000}' <= c <= '\U{200A}'
    || c == '\U{2028}'
    || c == '\U{2029}'
    || c == '\U{202F}'
    || c == '\U{205F}'
    || c == '\U{3000}'
  }

  /** `char::to_ascii_lowercase`: maps 'A'..'Z' to 'a'..'z' and leaves every other character alone. */
  function LowerChar(c: char): (r: char)
    ensures !IsUpper(r)
    ensures IsAlnum(r) <==> IsAlnum(c)
    ensures !IsUpper(c) ==> r == c
    ensures IsUpper(c) ==> r as int == c as int + 32
  {
    if IsUpper(c) then (c as int - 'A' as int + 'a' as int) as char else c
  }

  /** Equality of two characters up to ASCII case, stated without `LowerChar`. */
  predicate SameIgnoringCase(c: char, d: char) {
    || c == d
    || (IsUpper(c) && d as int == c as int + 32)
    || (IsUpper(d) && c as int == d as int + 32)
  }

  // ---------------------------------------------------------------------
  // Lower-casing and normalisation
  // ---------------------------------------------------------------------

  /** `str::to_lowercase`, restricted to ASCII letters. */
  function Lower(s: string): (r: string)
    ensures |r| == |s|
    ensures forall i :: 0 <= i < |r| ==> !IsUpper(r[i]) && SameIgnoringCase(r[i], s[i])
  {
    seq(|s|, i requires 0 <= i < |s| => LowerChar(s[i]))
  }

  /** Comparing lower-cased strings is comparing them character by character up to case. */
  lemma LowerEqualIffSameIgnoringCase(a: string, b: string)
    ensures Lower(a) == Lower(b) <==>
      |a| == |b| && forall i :: 0 <= i < |a| ==> SameIgnoringCase(a[i], b[i])
  {
    if |a| == |b| && forall i :: 0 <= i < |a| ==> SameIgnoringCase(a[i], b[i]) {
      forall i | 0 <= i < |a| ensures Lower(a)[i] == Lower(b)[i] {
        assert SameIgnoringCase(a[i], b[i]);
      }
    }
    if Lower(a) == Lower(b) {
      forall i | 0 <= i < |a| ensures SameIgnoringCase(a[i], b[i]) {
        assert LowerChar(a[i]) == Lower(a)[i] == Lower(b)[i] == LowerChar(b[i]);
      }
    }
  }

  /** Lower-casing twice is lower-casing once. */
  lemma LowerIdempotent(s: string)
    ensures Lower(Lower(s)) == Lower(s)
  {
    assert forall i :: 0 <= i < |s| ==> Lower(Lower(s))[i] == Lower(s)[i];
  }

  /** A string without upper-case letters is its own lower-case form. */
  lemma LowerOfLower(s: string)
    requires forall i :: 0 <= i < |s| ==> !IsUpper(s[i])
    ensures Lower(s) == s
  {
    assert forall i :: 0 <= i < |s| ==> Lower(s)[i] == s[i];
  }

  lemma LowerAppend(a: string, b: string)
    ensures Lower(a + b) == Lower(a) + Lower(b)
  {
    assert forall i :: 0 <= i < |a + b| ==> Lower(a + b)[i] == (Lower(a) + Lower(b))[i];
  }

  /** The alphanumeric characters of `s`, in order (the `filter` of `normalize_name`). */
  function KeepAlnum(s: string): (r: string)
    ensures |r| <= |s|
    ensures forall i :: 0 <= i < |r| ==> IsAlnum(r[i])
  {
    if s == [] then []
    else (if IsAlnum(s[0]) then [s[0]] else []) + KeepAlnum(s[1..])
  }

  lemma {:induction false} KeepAlnumAppend(a: string, b: string)
    ensures KeepAlnum(a + b) == KeepAlnum(a) + KeepAlnum(b)
  {
    if a == [] {
      assert a + b == b;
    } else {
      assert (a + b)[1..] == a[1..] + b;
      KeepAlnumAppend(a[1..], b);
    }
  }

  lemma {:induction false} KeepAlnumOfAlnum(s: string)
    requires forall i :: 0 <= i < |s| ==> IsAlnum(s[i])
    ensures KeepAlnum(s) == s
  {
    if s != [] {
      KeepAlnumOfAlnum(s[1..]);
    }
  }

  lemma {:induction false} KeepAlnumLower(s: string)
    ensures KeepAlnum(Lower(s)) == Lower(KeepAlnum(s))
  {
    if s != [] {
      assert Lower(s) == [LowerChar(s[0])] + Lower(s[1..]);
      assert Lower(s)[1..] == Lower(s[1..]);
      KeepAlnumLower(s[1..]);
      LowerAppend(if IsAlnum(s[0]) then [s[0]] else [], KeepAlnum(s[1..]));
    }
  }

  /**
   * `normalize_name`: keeps only the alphanumeric characters and lower-cases
   * them. Every character of the result is a lower-case letter or a digit.
   */
  function Normalize(name: string): (r: string)
    ensures |r| <= |name|
    ensures forall i :: 0 <= i < |r| ==> IsAlnum(r[i]) && !IsUpper(r[i])
  {
    Lower(KeepAlnum(name))
  }

  /** A name made of lower-case letters and digits only is its own normalised form. */
  lemma NormalizeOfNormal(s: string)
    requires forall i :: 0 <= i < |s| ==> IsAlnum(s[i]) && !IsUpper(s[i])
    ensures Normalize(s) == s
  {
    KeepAlnumOfAlnum(s);
    LowerOfLower(s);
  }

  /** Normalising an already normalised name changes nothing. */
  lemma NormalizeIdempotent(name: string)
    ensures Normalize(Normalize(name)) == Normalize(name)
  {
    var r := Normalize(name);
    KeepAlnumOfAlnum(r);
    LowerOfLower(r);
  }

  /** Lower-casing before normalising (as the matcher does) makes no difference. */
  lemma NormalizeLower(name: string)
    ensures Normalize(Lower(name)) == Normalize(name)
  {
    KeepAlnumLower(name);
    LowerIdempotent(KeepAlnum(name));
  }

  /** Normalisation works piecewise on a concatenation. */
  lemma NormalizeAppend(a: string, b: string)
    ensures Normalize(a + b) == Normalize(a) + Normalize(b)
  {
    KeepAlnumAppend(a, b);
    LowerAppend(KeepAlnum(a), KeepAlnum(b));
  }

  /** A separator (space, hyphen, underscore, ...) anywhere in a name is ignored. */
  lemma NormalizeIgnoresSeparator(a: string, c: char, b: string)
    requires !IsAlnum(c)
    ensures Normalize(a + [c] + b) == Normalize(a + b)
  {
    NormalizeAppend(a + [c], b);
    NormalizeAppend(a, [c]);
    NormalizeAppend(a, b);
    assert KeepAlnum([c]) == [];
  }

  // ---------------------------------------------------------------------
  // Containment
  // ---------------------------------------------------------------------

  /** `needle` occurs in `hay` starting at index `i`. */
  predicate OccursAt(hay: string, needle: string, i: int) {
    0 <= i && i + |needle| <= |hay| && hay[i..i + |needle|] == needle
  }

  /** `str::contains`: `needle` is a contiguous piece of `hay` (the empty string is in every string). */
  predicate Contains(hay: string, needle: string)
    decreases |hay|
  {
    needle <= hay || (hay != [] && Contains(hay[1..], needle))
  }

  /** `Contains` agrees with the definition by an occurrence index. */
  lemma {:induction false} ContainsIffOccurs(hay: string, needle: string)
    ensures Contains(hay, needle) <==> exists i :: OccursAt(hay, needle, i)
    decreases |hay|
  {
    if needle <= hay {
      assert OccursAt(hay, needle, 0);
    } else if hay == [] {
    } else {
      ContainsIffOccurs(hay[1..], needle);
      if Contains(hay[1..], needle) {
        var j :| OccursAt(hay[1..], needle, j);
        assert hay[j + 1..j + 1 + |needle|] == hay[1..][j..j + |needle|];
        assert OccursAt(hay, needle, j + 1);
      }
      if exists i :: OccursAt(hay, needle, i) {
        var i :| OccursAt(hay, needle, i);
        assert i != 0;
        assert hay[1..][i - 1..i - 1 + |needle|] == hay[i..i + |needle|];
        assert OccursAt(hay[1..], needle, i - 1);
      }
    }
  }

  // ---------------------------------------------------------------------
  // Trimming
  // ---------------------------------------------------------------------

  /** `str::trim_start`: drops the leading whitespace. */
  function TrimStart(s: string): (r: string)
    ensures |r| <= |s| && r == s[|s| - |r|..]
    ensures r == [] || !IsWhitespace(r[0])
    ensures forall i :: 0 <= i < |s| - |r| ==> IsWhitespace(s[i])
  {
    if s != [] && IsWhitespace(s[0]) then TrimStart(s[1..]) else s
  }

  /** `str::trim_end`: drops the trailing whitespace. */
  function TrimEnd(s: string): (r: string)
    ensures |r| <= |s| && r == s[..|r|]
    ensures r == [] || !IsWhitespace(r[|r| - 1])
    ensures forall i :: |r| <= i < |s| ==> IsWhitespace(s[i])
  {
    if s != [] && IsWhitespace(s[|s| - 1]) then TrimEnd(s[..|s| - 1]) else s
  }

  /**
   * `str::trim`: the result is the piece of `s` that remains once the
   * whitespace at both ends is dropped; it starts and ends with a
   * non-whitespace character, and everything dropped is whitespace.
   */
  function Trim(s: string): (r: string)
    ensures r == [] || (!IsWhitespace(r[0]) && !IsWhitespace(r[|r| - 1]))
    ensures var lead := |s| - |TrimStart(s)|;
      && lead + |r| <= |s|
      && r == s[lead..lead + |r|]
      && (forall i :: 0 <= i < lead ==> IsWhitespace(s[i]))
      && (forall i :: lead + |r| <= i < |s| ==> IsWhitespace(s[i]))
  {
    TrimEnd(TrimStart(s))
  }

  /** Whitespace around a string does not change its trimmed form. */
  lemma TrimIgnoresPadding(pre: string, s: string, post: string)
    requires forall i :: 0 <= i < |pre| ==> IsWhitespace(pre[i])
    requires forall i :: 0 <= i < |post| ==> IsWhitespace(post[i])
    ensures Trim(pre + s + post) == Trim(s)
  {
    TrimStartPadding(pre, s + post);
    assert pre + s + post == pre + (s + post);
    var t := TrimStart(s);
    if t == [] {
      assert forall i :: 0 <= i < |s| ==> IsWhitespace(s[i]);
      TrimStartPadding(s, post);
      assert s + post == s + post + [];
      TrimStartAllWhitespace(post);
    } else {
      TrimStartKeepsTail(s, post);
      TrimEndPadding(t, post);
    }
  }

  lemma {:induction false} TrimStartPadding(pre: string, s: string)
    requires forall i :: 0 <= i < |pre| ==> IsWhitespace(pre[i])
    ensures TrimStart(pre + s) == TrimStart(s)
  {
    if pre != [] {
      assert (pre + s)[1..] == pre[1..] + s;
      TrimStartPadding(pre[1..], s);
    } else {
      assert pre + s == s;
    }
  }

  lemma TrimStartAllWhitespace(s: string)
    requires forall i :: 0 <= i < |s| ==> IsWhitespace(s[i])
    ensures TrimStart(s) == []
  {
  }

  lemma {:induction false} TrimStartKeepsTail(s: string, post: string)
    requires TrimStart(s) != []
    ensures TrimStart(s + post) == TrimStart(s) + post
  {
    if s != [] && IsWhitespace(s[0]) {
      assert (s + post)[1..] == s[1..] + post;
      TrimStartKeepsTail(s[1..], post);
    }
  }

  lemma {:induction false} TrimEndPadding(s: string, post: string)
    requires forall i :: 0 <= i < |post| ==> IsWhitespace(post[i])
    ensures TrimEnd(s + post) == TrimEnd(s)
    decreases |post|
  {
    if post != [] {
      assert (s + post)[..|s + post| - 1] == s + post[..|post| - 1];
      TrimEndPadding(s, post[..|post| - 1]);
    } else {
      assert s + post == s;
    }
  }

  // ---------------------------------------------------------------------
  // Splitting and joining
  // ---------------------------------------------------------------------

  /** The number of occurrences of `c` in `s`. */
  function CountChar(s: string, c: char): nat {
    if s == [] then 0 else (if s[0] == c then 1 else 0) + CountChar(s[1..], c)
  }

  /** Re-assembles pieces with the separator between consecutive pieces. */
  function Join(parts: seq<string>, sep: char): string
    requires |parts| >= 1
  {
    if |parts| == 1 then parts[0] else parts[0] + [sep] + Join(parts[1..], sep)
  }

  /**
   * `str::split(sep)`: the pieces between separators. There is always at
   * least one piece (the empty string gives one empty piece) and no piece
   * holds the separator; `SplitCount` and `JoinSplit` below give the number
   * of pieces and the round trip through `Join`.
   */
  function Split(s: string, sep: char): (parts: seq<string>)
    ensures |parts| >= 1
    ensures forall i :: 0 <= i < |parts| ==> sep !in parts[i]
  {
    if s == [] then [[]]
    else
      var rest := Split(s[1..], sep);
      if s[0] == sep then [[]] + rest
      else [[s[0]] + rest[0]] + rest[1..]
  }

  /** There is one more piece than there are separators. */
  lemma {:induction false} SplitCount(s: string, sep: char)
    ensures |Split(s, sep)| == CountChar(s, sep) + 1
  {
    if s != [] {
      SplitCount(s[1..], sep);
    }
  }

  /** Joining the pieces with the separator gives the string back. */
  lemma {:induction false} JoinSplit(s: string, sep: char)
    ensures Join(Split(s, sep), sep) == s
  {
    if s != [] {
      JoinSplit(s[1..], sep);
      var rest := Split(s[1..], sep);
      var parts := Split(s, sep);
      assert s == [s[0]] + s[1..];
      if s[0] == sep {
        assert parts[1..] == rest;
      } else {
        assert parts[1..] == rest[1..];
        if |rest| > 1 {
          assert Join(rest, sep) == rest[0] + [sep] + Join(rest[1..], sep);
        }
      }
    }
  }

  /** A string without the separator is a single piece. */
  lemma {:induction false} SplitWithoutSeparator(s: string, sep: char)
    requires sep !in s
    ensures Split(s, sep) == [s]
  {
    if s != [] {
      assert s[0] != sep && sep !in s[1..];
      SplitWithoutSeparator(s[1..], sep);
      assert s == [s[0]] + s[1..];
    }
  }

  /** Splitting at a separator splits the two sides independently. */
  lemma {:induction false} SplitAtSeparator(a: string, sep: char, b: string)
    ensures Split(a + [sep] + b, sep) == Split(a, sep) + Split(b, sep)
  {
    if a == [] {
      assert a + [sep] + b == [sep] + b;
      SplitConsSeparator(b, sep);
    } else {
      var c, tail := a[0], a[1..];
      var t := tail + [sep] + b;
      assert a + [sep] + b == [c] + t;
      assert a == [c] + tail;
      SplitAtSeparator(tail, sep, b);
      if c == sep {
        SplitConsSeparator(t, sep);
        SplitConsSeparator(tail, sep);
      } else {
        SplitConsOther(c, t, sep);
        SplitConsOther(c, tail, sep);
        ExtendFirstPiece(c, Split(tail, sep), Split(b, sep));
      }
    }
  }

  /** Prefixing the first piece of a concatenation only touches its left part. */
  lemma ExtendFirstPiece(c: char, front: seq<string>, back: seq<string>)
    requires |front| >= 1
    ensures [[c] + (front + back)[0]] + (front + back)[1..] == ([[c] + front[0]] + front[1..]) + back
  {
    assert (front + back)[0] == front[0];
    assert (front + back)[1..] == front[1..] + back;
  }

  /** One step of `Split` on a string that starts with the separator. */
  lemma SplitConsSeparator(s: string, sep: char)
    ensures Split([sep] + s, sep) == [[]] + Split(s, sep)
  {
    assert ([sep] + s)[1..] == s;
  }

  /** One step of `Split` on a string that starts with another character. */
  lemma SplitConsOther(c: char, s: string, sep: char)
    requires c != sep
    ensures Split([c] + s, sep) == [[c] + Split(s, sep)[0]] + Split(s, sep)[1..]
  {
    assert ([c] + s)[1..] == s;
  }

  /** Splitting a join of separator-free pieces gives the pieces back. */
  lemma {:induction false} SplitJoin(parts: seq<string>, sep: char)
    requires |parts| >= 1
    requires forall i :: 0 <= i < |parts| ==> sep !in parts[i]
    ensures Split(Join(parts, sep), sep) == parts
  {
    if |parts| == 1 {
      SplitWithoutSeparator(parts[0], sep);
    } else {
      SplitJoin(parts[1..], sep);
      SplitAtSeparator(parts[0], sep, Join(parts[1..], sep));
      SplitWithoutSeparator(parts[0], sep);
      assert parts == [parts[0]] + parts[1..];
    }
  }

  // ---------------------------------------------------------------------
  // Path components
  // ---------------------------------------------------------------------

  /** A path, as the text of a `PathBuf`. */
  type Path = string

  /** The pieces of a '/'-split path that are components: empty pieces and "." are normalised away. */
  function Components(pieces: seq<string>): (r: seq<string>)
    ensures forall i :: 0 <= i < |r| ==> r[i] != [] && r[i] != "."
  {
    if pieces == [] then []
    else (if pieces[0] == [] || pieces[0] == "." then [] else [pieces[0]]) + Components(pieces[1..])
  }

  lemma {:induction false} ComponentsAppend(a: seq<string>, b: seq<string>)
    ensures Components(a + b) == Components(a) + Components(b)
  {
    if a == [] {
      assert a + b == b;
    } else {
      assert (a + b)[1..] == a[1..] + b;
      ComponentsAppend(a[1..], b);
    }
  }

  /**
   * `Path::file_name` on a Unix path: the last component, or nothing when
   * the path has no components (the root, the empty path) or ends in "..".
   */
  function FileName(path: Path): (r: Option<string>)
    ensures r.Some? ==> r.value != [] && r.value != "." && r.value != ".." && '/' !in r.value
  {
    var cs := Components(Split(path, '/'));
    if cs == [] || cs[|cs| - 1] == ".." then None
    else
      assert cs[|cs| - 1] in Split(path, '/') by {
        ComponentsAreSplitPieces(Split(path, '/'), cs[|cs| - 1]);
      }
      Some(cs[|cs| - 1])
  }

  lemma {:induction false} ComponentsAreSplitPieces(pieces: seq<string>, c: string)
    requires c in Components(pieces)
    ensures c in pieces
  {
    if pieces != [] && c != pieces[0] {
      ComponentsAreSplitPieces(pieces[1..], c);
    }
  }

  /** The path starts at the root directory. */
  predicate Rooted(path: Path) {
    path != [] && path[0] == '/'
  }

  /** A relative path whose first piece is ".", which `Path::components` keeps as `CurDir`. */
  predicate LeadingCurDir(path: Path) {
    Split(path, '/')[0] == "."
  }

  /**
   * `Path` equality, which compares component lists: repeated and trailing
   * separators and inner "." pieces do not matter, a leading root or "." does.
   */
  predicate SamePath(p: Path, q: Path) {
    && Rooted(p) == Rooted(q)
    && LeadingCurDir(p) == LeadingCurDir(q)
    && Components(Split(p, '/')) == Components(Split(q, '/'))
  }

  /** A trailing separator does not change which path is meant. */
  lemma SamePathTrailingSeparator(path: Path)
    requires path != []
    ensures SamePath(path + "/", path)
  {
    assert path + "/" == path + ['/'] + [];
    SplitAtSeparator(path, '/', []);
    ComponentsAppend(Split(path, '/'), [[]]);
    assert Components([[]]) == [];
    assert (path + "/")[0] == path[0];
  }

  /** The file name of `parent/name` is `name` for a plain component name. */
  /** Two different plain names under the same parent are different paths. */
  lemma SamePathDistinctChildren(parent: Path, a: string, b: string)
    requires '/' !in a && a != [] && a != "."
    requires '/' !in b && b != [] && b != "."
    requires a != b
    ensures !SamePath(parent + "/" + a, parent + "/" + b)
  {
    SplitAtSeparator(parent, '/', a);
    SplitAtSeparator(parent, '/', b);
    SplitWithoutSeparator(a, '/');
    SplitWithoutSeparator(b, '/');
    ComponentsAppend(Split(parent, '/'), [a]);
    ComponentsAppend(Split(parent, '/'), [b]);
    assert Components([a]) == [a];
    assert Components([b]) == [b];
    var ca := Components(Split(parent + "/" + a, '/'));
    var cb := Components(Split(parent + "/" + b, '/'));
    assert ca[|ca| - 1] == a && cb[|cb| - 1] == b;
  }

  lemma FileNameOfChild(parent: Path, name: string)
    requires '/' !in name && name != [] && name != "." && name != ".."
    ensures FileName(parent + "/" + name) == Some(name)
  {
    SplitAtSeparator(parent, '/', name);
    SplitWithoutSeparator(name, '/');
    ComponentsAppend(Split(parent, '/'), [name]);
    assert Components([name]) == [name];
  }
}
