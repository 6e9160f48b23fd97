/**
 * The path and string operations of Node.js that the sync engine relies on
 * (`path.basename`, `path.isAbsolute`, `path.resolve`, `path.join`, `untildify`)
 * and the two `String.prototype` methods it uses (`split`, `replace` with a string
 * pattern), on POSIX paths. The file system is abstracted as a map from path to kind.
 */
module Paths {
  import opened Wrappers
  import Seqs

  /** What `fs.lstatSync(p)` reports for an existing path. */
  datatype Kind = File | Dir | Symlink

  /** The paths that exist, each with the kind `lstat` gives it. */
  type FileSystem = map<string, Kind>

  predicate IsDir(fs: FileSystem, p: string) { p in fs && fs[p] == Dir }

  predicate IsSymlink(fs: FileSystem, p: string) { p in fs && fs[p] == Symlink }

  /** `path.isAbsolute` on POSIX. */
  predicate IsAbsolute(p: string) { |p| > 0 && p[0] == '/' }

  /** `p` without its trailing slashes (what normalisation removes at the end of a path). */
  function StripTrailingSlashes(p: string): (r: string)
    ensures |r| <= |p| && r == p[..|r|]
    ensures r == "" || r[|r| - 1] != '/'
    ensures forall k :: |r| <= k < |p| ==> p[k] == '/'
    decreases |p|
  {
    if |p| > 0 && p[|p| - 1] == '/' then StripTrailingSlashes(p[..|p| - 1]) else p
  }

  /** The index of the last `/` in `p`, if any. */
  function LastSlash(p: string): (r: Option<nat>)
    ensures r.Some? ==> r.value < |p| && p[r.value] == '/'
    ensures r.Some? ==> forall k :: r.value < k < |p| ==> p[k] != '/'
    ensures r.None? ==> forall k :: 0 <= k < |p| ==> p[k] != '/'
    decreases |p|
  {
    if |p| == 0 then None
    else if p[|p| - 1] == '/' then Some(|p| - 1)
    else LastSlash(p[..|p| - 1])
  }

  /** The last slash of `a + b` is the last slash of `b` if it has one, else that of `a`. */
  lemma {:induction false} LastSlashConcat(a: string, b: string)
    ensures LastSlash(a + b) ==
      match LastSlash(b)
      case Some(k) => Some(|a| + k)
      case None => LastSlash(a)
    decreases |b|
  {
    if |b| == 0 {
      assert a + b == a;
    } else {
      assert (a + b)[..|a + b| - 1] == a + b[..|b| - 1];
      if b[|b| - 1] != '/' {
        LastSlashConcat(a, b[..|b| - 1]);
      }
    }
  }

  /** The part of `p` after its last slash. */
  function AfterLastSlash(p: string): (r: string)
    ensures forall k :: 0 <= k < |r| ==> r[k] != '/'
  {
    match LastSlash(p)
    case None => p
    case Some(k) => p[k + 1..]
  }

  /** `path.basename`: the last segment of `p`, trailing slashes ignored. */
  function Basename(p: string): (r: string)
    ensures forall k :: 0 <= k < |r| ==> r[k] != '/'
    ensures |r| <= |p|
  {
    AfterLastSlash(StripTrailingSlashes(p))
  }

  /**
   * The basename is the longest slash-free suffix of the path without its
   * trailing slashes: a suffix of it that is all of it or follows a slash.
   * A path without slashes is its own basename.
   */
  lemma BasenameIsLastSegment(p: string)
    ensures var q, r := StripTrailingSlashes(p), Basename(p);
            && |r| <= |q| && r == q[|q| - |r|..]
            && (|r| < |q| ==> q[|q| - |r| - 1] == '/')
    ensures (forall k :: 0 <= k < |p| ==> p[k] != '/') ==> Basename(p) == p
  {
    var q := StripTrailingSlashes(p);
    match LastSlash(q)
    case None =>
    case Some(k) =>
      assert |q| - |q[k + 1..]| - 1 == k;
  }

  /** The segment after the last slash does not depend on what lies before that slash. */
  lemma AfterLastSlashOfChild(a: string, b: string)
    ensures AfterLastSlash(a + "/" + b) == AfterLastSlash(b)
  {
    LastSlashConcat(a + "/", b);
    LastSlashConcat(a, "/");
    assert (a + "/" + b)[|a| + 1..] == b;
    match LastSlash(b)
    case None =>
    case Some(k) =>
      assert (a + "/" + b)[|a| + 1 + k + 1..] == b[k + 1..];
  }

  /** A path whose last segment is not empty keeps its basename when put under a directory. */
  lemma BasenameOfChild(a: string, b: string)
    requires StripTrailingSlashes(b) != ""
    ensures Basename(a + "/" + b) == Basename(b)
  {
    StripOfChild(a, b);
    AfterLastSlashOfChild(a, StripTrailingSlashes(b));
  }

  /** Trailing slashes of a child path are those of its last segment. */
  lemma {:induction false} StripOfChild(a: string, b: string)
    requires StripTrailingSlashes(b) != ""
    ensures StripTrailingSlashes(a + "/" + b) == a + "/" + StripTrailingSlashes(b)
    decreases |b|
  {
    var c := a + "/" + b;
    assert c[|c| - 1] == b[|b| - 1];
    if b[|b| - 1] == '/' {
      assert c[..|c| - 1] == a + "/" + b[..|b| - 1];
      StripOfChild(a, b[..|b| - 1]);
    }
  }

  /**
   * `untildify(p)`: a leading `~` that stands alone or is followed by `/` or `\`
   * becomes the home directory; an empty home directory leaves `p` unchanged.
   */
  function Untildify(p: string, home: string): (r: string)
    ensures home == "" || |p| == 0 || p[0] != '~' ==> r == p
    ensures p == "~" && home != "" ==> r == home
    ensures home != "" && |p| >= 2 && p[0] == '~' && p[1] == '/' ==> r == home + p[1..]
  {
    if home != "" && |p| > 0 && p[0] == '~' && (|p| == 1 || p[1] == '/' || p[1] == '\\')
    then home + p[1..]
    else p
  }

  /**
   * `path.resolve(base, p)` for a normalised absolute `base` and a `p` without
   * `.`/`..` segments: an absolute `p` wins, otherwise `p` is put under `base`;
   * trailing slashes are dropped.
   */
  function Resolve(base: string, p: string): (r: string)
    ensures IsAbsolute(p) ==> IsAbsolute(r)
    ensures !IsAbsolute(p) && StripTrailingSlashes(p) != "" ==> r == base + "/" + StripTrailingSlashes(p)
  {
    if IsAbsolute(p) then
      (if StripTrailingSlashes(p) == "" then "/" else StripTrailingSlashes(p))
    else if StripTrailingSlashes(p) == "" then base
    else base + "/" + StripTrailingSlashes(p)
  }

  /** `path.join(dir, rel)` for a relative, normalised, non-empty `rel`. */
  function Join(dir: string, rel: string): string {
    StripTrailingSlashes(dir) + "/" + rel
  }

  /** `path.resolve(p, '..')` for a normalised absolute `p`: everything before its last slash. */
  function Parent(p: string): (r: string)
    requires '/' in p
  {
    match LastSlash(p)
    case Some(k) => if k == 0 then "/" else p[..k]
    case None => assert false; p
  }

  /** The parent of `a + "/" + b`, for a non-empty `a` and a segment `b`, is `a`. */
  lemma ParentOfChild(a: string, b: string)
    requires a != "" && '/' !in b
    ensures '/' in a + "/" + b
    ensures Parent(a + "/" + b) == a
  {
    assert (a + "/" + b)[|a|] == '/';
    LastSlashConcat(a + "/", b);
    LastSlashConcat(a, "/");
    assert (a + "/" + b)[..|a|] == a;
  }

  // ---------------------------------------------------------------------------
  // String.prototype.replace with a string pattern

  predicate OccursAt(s: string, pat: string, i: nat) {
    i + |pat| <= |s| && s[i..i + |pat|] == pat
  }

  /** `s.indexOf(pat, from)`: the first position at or after `from` where `pat` occurs. */
  function IndexOf(s: string, pat: string, from: nat): (r: Option<nat>)
    requires from <= |s|
    ensures r.Some? ==> from <= r.value && OccursAt(s, pat, r.value)
    ensures r.Some? ==> forall j :: from <= j < r.value ==> !OccursAt(s, pat, j)
    ensures r.None? ==> forall j :: from <= j <= |s| ==> !OccursAt(s, pat, j)
    decreases |s| - from
  {
    if OccursAt(s, pat, from) then Some(from)
    else if from == |s| then None
    else IndexOf(s, pat, from + 1)
  }

  /**
   * The text `replace` inserts for a string pattern and a replacement string
   * `rep`: `$$` is a dollar sign, `$&` the matched text, `` $` `` the text
   * before the match and `$'` the text after it; a string pattern has no
   * capture groups, so any other `$` stands for itself.
   */
  function Substitution(rep: string, matched: string, before: string, after: string): (r: string)
    ensures '$' !in rep ==> r == rep
    decreases |rep|
  {
    if rep == [] then []
    else if rep[0] == '$' && |rep| >= 2 && rep[1] in "$&`'" then
      var expansion := if rep[1] == '$' then "$" else if rep[1] == '&' then matched else if rep[1] == '`' then before else after;
      expansion + Substitution(rep[2..], matched, before, after)
    else
      assert rep == [rep[0]] + rep[1..];
      [rep[0]] + Substitution(rep[1..], matched, before, after)
  }

  /** The `$&` pattern brings the matched text back. */
  lemma SubstitutionOfMatch(matched: string, before: string, after: string)
    ensures Substitution("$&", matched, before, after) == matched
  {
    assert "$&"[2..] == [];
  }

  /** The other three patterns: `$$` is a single dollar, `` $` `` the text before the match and `$'` the text after it. */
  lemma SubstitutionOfPatterns(matched: string, before: string, after: string)
    ensures Substitution("$$", matched, before, after) == "$"
    ensures Substitution("$`", matched, before, after) == before
    ensures Substitution("$'", matched, before, after) == after
  {
    assert "$$"[2..] == [];
    assert "$`"[2..] == [];
    assert "$'"[2..] == [];
  }

  /** The first occurrence of `pat`, if any, replaced by `ins` taken literally (what a replacement function returning `ins` gives). */
  function ReplaceFirstLiteral(s: string, pat: string, ins: string): string {
    match IndexOf(s, pat, 0)
    case None => s
    case Some(i) => s[..i] + ins + s[i + |pat|..]
  }

  /** `s.replace(pat, rep)` with a string pattern: the first occurrence of `pat`, if any, becomes the substitution of `rep`. */
  function ReplaceFirst(s: string, pat: string, rep: string): (r: string)
  {
    match IndexOf(s, pat, 0)
    case None => s
    case Some(i) => s[..i] + Substitution(rep, pat, s[..i], s[i + |pat|..]) + s[i + |pat|..]
  }

  /** A replacement without `$` is inserted literally. */
  lemma ReplaceFirstPlain(s: string, pat: string, rep: string)
    requires '$' !in rep
    ensures ReplaceFirst(s, pat, rep) == ReplaceFirstLiteral(s, pat, rep)
  {
  }

  /**
   * A string that starts with the pattern has exactly that prefix replaced:
   * literally by `ReplaceFirstLiteral`, and by the substitution of `rep`,
   * with nothing before the match, by `replace`.
   */
  lemma ReplaceFirstAtStart(pat: string, tail: string, rep: string)
    ensures ReplaceFirstLiteral(pat + tail, pat, rep) == rep + tail
    ensures ReplaceFirst(pat + tail, pat, rep) == Substitution(rep, pat, "", tail) + tail
  {
    assert OccursAt(pat + tail, pat, 0);
    assert (pat + tail)[..0] == "";
    assert (pat + tail)[|pat|..] == tail;
  }

  /** A string without the pattern is left unchanged. */
  lemma ReplaceFirstAbsent(s: string, pat: string, rep: string)
    requires forall j :: 0 <= j <= |s| ==> !OccursAt(s, pat, j)
    ensures ReplaceFirst(s, pat, rep) == s
  {
  }

  // ---------------------------------------------------------------------------
  // String.prototype.split with a one-character separator

  /** The pieces joined back with `sep` between them (`Array.prototype.join`). */
  function JoinWith(pieces: seq<string>, sep: char): string
    requires |pieces| >= 1
  {
    if |pieces| == 1 then pieces[0] else pieces[0] + [sep] + JoinWith(pieces[1..], sep)
  }

  /** `s.split(sep)`: at least one piece, none containing `sep`, that joined with `sep` give `s` back. */
  function Split(s: string, sep: char): (r: seq<string>)
    ensures |r| >= 1
    ensures forall k :: 0 <= k < |r| ==> sep !in r[k]
    ensures JoinWith(r, sep) == s
    decreases |s|
  {
    if s == [] then [""]
    else
      var rest := Split(s[1..], sep);
      if s[0] == sep then
        assert s == [sep] + s[1..];
        [""] + rest
      else
        var first := [s[0]] + rest[0];
        assert ([first] + rest[1..])[1..] == rest[1..];
        assert |rest| > 1 ==> JoinWith([first] + rest[1..], sep) == [s[0]] + (rest[0] + [sep] + JoinWith(rest[1..], sep));
        assert s == [s[0]] + s[1..];
        [first] + rest[1..]
  }

  /** A separator-free first piece followed by the separator splits off as one piece. */
  lemma {:induction false} SplitCons(x: string, rest: string, sep: char)
    requires sep !in x
    ensures Split(x + [sep] + rest, sep) == [x] + Split(rest, sep)
    decreases |x|
  {
    if x == [] {
      assert x + [sep] + rest == [sep] + rest;
      assert ([sep] + rest)[1..] == rest;
    } else {
      assert (x + [sep] + rest)[1..] == x[1..] + [sep] + rest;
      SplitCons(x[1..], rest, sep);
      assert [x[0]] + x[1..] == x;
    }
  }

  /** The text of a listing: every line followed by a newline. */
  function Unlines(lines: seq<string>): string {
    if lines == [] then "" else lines[0] + "\n" + Unlines(lines[1..])
  }

  /** `text.split('\n').filter(l => l)`: the non-empty lines of `text`. */
  function Lines(text: string): (r: seq<string>)
    ensures forall k :: 0 <= k < |r| ==> r[k] != "" && '\n' !in r[k]
  {
    Seqs.Filter(Split(text, '\n'), (l: string) => l != "")
  }

  /** Splitting a listing gives its lines and a final empty piece. */
  lemma {:induction false} SplitUnlines(lines: seq<string>)
    requires forall k :: 0 <= k < |lines| ==> '\n' !in lines[k]
    ensures Split(Unlines(lines), '\n') == lines + [""]
  {
    if lines != [] {
      SplitCons(lines[0], Unlines(lines[1..]), '\n');
      assert lines[0] + "\n" + Unlines(lines[1..]) == lines[0] + ['\n'] + Unlines(lines[1..]);
      SplitUnlines(lines[1..]);
      assert [lines[0]] + (lines[1..] + [""]) == lines + [""];
    }
  }

  /** Reading back a listing of non-empty, newline-free names gives exactly those names, in order. */
  lemma LinesOfListing(names: seq<string>)
    requires forall k :: 0 <= k < |names| ==> names[k] != "" && '\n' !in names[k]
    ensures Lines(Unlines(names)) == names
  {
    var keep := (l: string) => l != "";
    SplitUnlines(names);
    Seqs.FilterConcat(names, [""], keep);
    Seqs.FilterKeepsAll(names, keep);
  }
}
