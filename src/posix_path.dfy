/** `String.prototype.split` on one separator and a specification of POSIX
    path joining: the arguments that are not empty are joined with '/', then
    the result is normalised ('.' and empty segments dropped, '..' resolved,
    a leading and a trailing '/' kept). */
module PosixPath {

  /** `s.split(sep)`: the pieces between separators, always at least one. */
  function Split(s: string, sep: char): (r: seq<string>)
    ensures |r| >= 1
    decreases |s|
  {
    if |s| == 0 then [[]]
    else if s[0] == sep then [[]] + Split(s[1..], sep)
    else
      var rest := Split(s[1..], sep);
      [[s[0]] + rest[0]] + rest[1..]
  }

  /** `parts.join(sep)`. */
  function JoinWith(parts: seq<string>, sep: char): string
    decreases |parts|
  {
    if |parts| == 0 then []
    else if |parts| == 1 then parts[0]
    else parts[0] + [sep] + JoinWith(parts[1..], sep)
  }

  /** No piece of a split contains the separator. */
  lemma {:induction false} SplitPiecesAvoidSep(s: string, sep: char)
    ensures forall i :: 0 <= i < |Split(s, sep)| ==> sep !in Split(s, sep)[i]
    decreases |s|
  {
    if |s| > 0 {
      SplitPiecesAvoidSep(s[1..], sep);
    }
  }

  /** Splitting the concatenation around one separator splits each side. */
  lemma {:induction false} SplitAround(a: string, sep: char, b: string)
    ensures Split(a + [sep] + b, sep) == Split(a, sep) + Split(b, sep)
    decreases |a|
  {
    if |a| == 0 {
      assert a + [sep] + b == [sep] + b;
      assert ([sep] + b)[1..] == b;
    } else {
      assert (a + [sep] + b)[1..] == a[1..] + [sep] + b;
      SplitAround(a[1..], sep, b);
    }
  }

  /** Splitting undoes joining when no part contains the separator. */
  lemma {:induction false} SplitJoinWith(parts: seq<string>, sep: char)
    requires |parts| >= 1
    requires forall i :: 0 <= i < |parts| ==> sep !in parts[i]
    ensures Split(JoinWith(parts, sep), sep) == parts
    decreases |parts|
  {
    if |parts| == 1 {
      SplitNoSep(parts[0], sep);
    } else {
      SplitJoinWith(parts[1..], sep);
      SplitAround(parts[0], sep, JoinWith(parts[1..], sep));
      SplitNoSep(parts[0], sep);
      assert parts == [parts[0]] + parts[1..];
    }
  }

  /** A string without the separator splits into itself. */
  lemma {:induction false} SplitNoSep(s: string, sep: char)
    requires sep !in s
    ensures Split(s, sep) == [s]
    decreases |s|
  {
    if |s| > 0 {
      SplitNoSep(s[1..], sep);
      assert [s[0]] + s[1..] == s;
    }
  }

  /** Joining undoes splitting. */
  lemma {:induction false} JoinWithSplit(s: string, sep: char)
    ensures JoinWith(Split(s, sep), sep) == s
    decreases |s|
  {
    if |s| > 0 {
      var rest := Split(s[1..], sep);
      JoinWithSplit(s[1..], sep);
      if s[0] == sep {
        assert Split(s, sep) == [[]] + rest;
        assert s == [] + [sep] + s[1..];
      } else {
        assert s == [s[0]] + s[1..];
        if |rest| > 1 {
          assert rest == [rest[0]] + rest[1..];
          assert ([[s[0]] + rest[0]] + rest[1..])[1..] == rest[1..];
        }
      }
    }
  }

  /** A segment that normalisation keeps as it is. */
  predicate Ordinary(segment: string) {
    segment != "." && segment != ".."
  }

  /** A segment of a clean path: not empty, neither '.' nor '..', no '/'. */
  predicate Clean(segment: string) {
    segment != [] && Ordinary(segment) && '/' !in segment
  }

  /** The non-empty segments of a sequence, in order. */
  function NonEmpty(segments: seq<string>): (r: seq<string>)
    ensures |r| <= |segments|
    ensures forall i :: 0 <= i < |r| ==> r[i] in segments && r[i] != []
  {
    if segments == [] then []
    else if segments[0] == [] then NonEmpty(segments[1..])
    else [segments[0]] + NonEmpty(segments[1..])
  }

  lemma {:induction false} NonEmptyAppend(a: seq<string>, b: seq<string>)
    ensures NonEmpty(a + b) == NonEmpty(a) + NonEmpty(b)
    decreases |a|
  {
    if a != [] {
      assert (a + b)[0] == a[0];
      assert (a + b)[1..] == a[1..] + b;
      NonEmptyAppend(a[1..], b);
    } else {
      assert a + b == b;
    }
  }

  /** The segments of a path, as normalisation sees them. */
  function Pieces(path: string): seq<string> {
    NonEmpty(Split(path, '/'))
  }

  /** Every segment of the path is empty or kept by normalisation as it is. */
  predicate Plain(path: string) {
    forall i :: 0 <= i < |Split(path, '/')| ==> Ordinary(Split(path, '/')[i])
  }

  /** The segment stack after reading `segments`: empty and '.' segments
      are skipped, '..' removes the last kept segment, or is kept itself
      when there is none and the path may climb above its start (relative
      paths), or dropped (absolute paths). */
  function Resolve(stack: seq<string>, segments: seq<string>, aboveRoot: bool): (r: seq<string>)
    decreases |segments|
  {
    if segments == [] then stack
    else
      var s := segments[0];
      var next :=
        if s == [] || s == "." then stack
        else if s == ".." then
          if |stack| > 0 && stack[|stack| - 1] != ".." then stack[..|stack| - 1]
          else if aboveRoot then stack + [".."]
          else stack
        else stack + [s];
      Resolve(next, segments[1..], aboveRoot)
  }

  /** Writes a normalised path from its segments. */
  function Render(absolute: bool, segments: seq<string>, trailing: bool): string {
    if segments == [] then
      if absolute then "/" else if trailing then "./" else "."
    else
      (if absolute then "/" else "") + JoinWith(segments, '/') + (if trailing then "/" else "")
  }

  /** Normalises a POSIX path. */
  function Normalize(path: string): string {
    if path == [] then "."
    else
      var absolute := path[0] == '/';
      var trailing := path[|path| - 1] == '/';
      Render(absolute, Resolve([], Split(path, '/'), !absolute), trailing)
  }

  /** The non-empty arguments joined by '/'; empty when there is none. */
  function Joined(args: seq<string>): string
    decreases |args|
  {
    if args == [] then []
    else
      var init := Joined(args[..|args| - 1]);
      var last := args[|args| - 1];
      if last == [] then init
      else if init == [] then last
      else init + "/" + last
  }

  /** Joins path arguments and normalises the result; "." for no text. */
  function Join(args: seq<string>): string {
    var joined := Joined(args);
    if joined == [] then "." else Normalize(joined)
  }

  /** On segments that are empty or ordinary, resolving only drops the empty ones. */
  lemma {:induction false} ResolveOrdinary(stack: seq<string>, segments: seq<string>, aboveRoot: bool)
    requires forall i :: 0 <= i < |segments| ==> Ordinary(segments[i])
    ensures Resolve(stack, segments, aboveRoot) == stack + NonEmpty(segments)
    decreases |segments|
  {
    if segments != [] {
      var s := segments[0];
      ResolveOrdinary(if s == [] then stack else stack + [s], segments[1..], aboveRoot);
    }
  }

  /** Normalising a plain path only drops its empty segments. */
  lemma NormalizePlain(path: string)
    requires path != [] && Plain(path)
    ensures Normalize(path) == Render(path[0] == '/', Pieces(path), path[|path| - 1] == '/')
  {
    ResolveOrdinary([], Split(path, '/'), path[0] != '/');
    assert [] + Pieces(path) == Pieces(path);
  }

  /** What joining does to segments: the segments of the joined text are
      those of the arguments, in order, and the joined text is plain when
      every argument is. */
  lemma {:induction false} JoinedPieces(args: seq<string>)
    requires forall i :: 0 <= i < |args| ==> Plain(args[i])
    ensures Pieces(Joined(args)) == AllPieces(args)
    ensures Plain(Joined(args))
    decreases |args|
  {
    if args != [] {
      var init := args[..|args| - 1];
      var last := args[|args| - 1];
      JoinedPieces(init);
      assert args == init + [last];
      AllPiecesAppend(init, last);
      if last == [] {
        assert Pieces(last) == [];
      } else if Joined(init) == [] {
        assert Pieces(Joined(init)) == [];
      } else {
        SplitAround(Joined(init), '/', last);
        assert Joined(init) + "/" + last == Joined(init) + ['/'] + last;
        NonEmptyAppend(Split(Joined(init), '/'), Split(last, '/'));
        PlainAround(Joined(init), last);
      }
    }
  }

  lemma PlainAround(a: string, b: string)
    requires Plain(a) && Plain(b)
    ensures Plain(a + "/" + b)
  {
    SplitAround(a, '/', b);
    assert a + "/" + b == a + ['/'] + b;
  }

  /** The segments of all arguments, in order. */
  function AllPieces(args: seq<string>): seq<string>
    decreases |args|
  {
    if args == [] then [] else AllPieces(args[..|args| - 1]) + Pieces(args[|args| - 1])
  }

  lemma AllPiecesAppend(init: seq<string>, last: string)
    ensures AllPieces(init + [last]) == AllPieces(init) + Pieces(last)
  {
    assert (init + [last])[..|init|] == init;
  }

  /** A joined path starts where its first argument starts. */
  lemma {:induction false} JoinedStart(args: seq<string>)
    requires |args| >= 1 && args[0] != []
    ensures Joined(args) != [] && Joined(args)[0] == args[0][0]
    decreases |args|
  {
    if |args| > 1 {
      JoinedStart(args[..|args| - 1]);
    }
  }

  /** An absolute path written from clean segments, with or without a trailing '/'. */
  function Absolute(segments: seq<string>, trailing: bool): string {
    "/" + JoinWith(segments, '/') + (if trailing then "/" else "")
  }

  lemma {:induction false} JoinWithLast(parts: seq<string>, sep: char)
    requires |parts| >= 1 && parts[|parts| - 1] != []
    ensures JoinWith(parts, sep) != []
    ensures JoinWith(parts, sep)[|JoinWith(parts, sep)| - 1] == parts[|parts| - 1][|parts[|parts| - 1]| - 1]
    decreases |parts|
  {
    if |parts| > 1 {
      JoinWithLast(parts[1..], sep);
    }
  }

  /** The split of an absolute path: an empty segment, the segments of its
      body, and an empty one after a trailing '/'. */
  lemma AbsoluteSplit(segments: seq<string>, trailing: bool)
    ensures Split(Absolute(segments, trailing), '/') ==
      [[]] + Split(JoinWith(segments, '/'), '/') + (if trailing then [[]] else [])
  {
    var body := JoinWith(segments, '/');
    if trailing {
      assert Absolute(segments, trailing) == [] + ['/'] + (body + ['/'] + []);
      SplitAround([], '/', body + ['/'] + []);
      SplitAround(body, '/', []);
    } else {
      assert Absolute(segments, trailing) == [] + ['/'] + body;
      SplitAround([], '/', body);
    }
  }

  /** Clean segments joined by '/' split back into themselves. */
  lemma BodySplit(segments: seq<string>)
    requires forall i :: 0 <= i < |segments| ==> Clean(segments[i])
    ensures NonEmpty(Split(JoinWith(segments, '/'), '/')) == segments
    ensures forall i :: 0 <= i < |Split(JoinWith(segments, '/'), '/')| ==> Ordinary(Split(JoinWith(segments, '/'), '/')[i])
  {
    if segments == [] {
      assert Split(JoinWith(segments, '/'), '/') == [[]];
    } else {
      SplitJoinWith(segments, '/');
      NonEmptyOfClean(segments);
    }
  }

  /** An absolute path built from clean segments is plain and has exactly
      those segments. */
  lemma AbsolutePieces(segments: seq<string>, trailing: bool)
    requires forall i :: 0 <= i < |segments| ==> Clean(segments[i])
    ensures Plain(Absolute(segments, trailing))
    ensures Pieces(Absolute(segments, trailing)) == segments
    ensures Absolute(segments, trailing)[0] == '/'
  {
    var split := Split(JoinWith(segments, '/'), '/');
    var tail: seq<string> := if trailing then [[]] else [];
    AbsoluteSplit(segments, trailing);
    BodySplit(segments);
    NonEmptyAppend([[]] + split, tail);
    NonEmptyAppend([[]], split);
    assert NonEmpty([[]]) == [];
    assert NonEmpty(tail) == [];
  }

  lemma {:induction false} NonEmptyOfClean(segments: seq<string>)
    requires forall i :: 0 <= i < |segments| ==> Clean(segments[i])
    ensures NonEmpty(segments) == segments
    decreases |segments|
  {
    if segments != [] {
      NonEmptyOfClean(segments[1..]);
      assert segments == [segments[0]] + segments[1..];
    }
  }

  /** Joining a clean absolute base path and a clean absolute path appends
      the second's segments to the first's, with exactly one '/' between
      segments; e.g. "/prefix/" joined with "/lodash" is "/prefix/lodash". */
  lemma JoinAbsolute(base: seq<string>, baseTrailing: bool, path: seq<string>, trailing: bool)
    requires forall i :: 0 <= i < |base| ==> Clean(base[i])
    requires forall i :: 0 <= i < |path| ==> Clean(path[i])
    ensures Join([Absolute(base, baseTrailing), Absolute(path, trailing)])
         == Render(true, base + path, trailing || path == [])
  {
    var a := Absolute(base, baseTrailing);
    var b := Absolute(path, trailing);
    AbsolutePieces(base, baseTrailing);
    AbsolutePieces(path, trailing);
    var args := [a, b];
    JoinedPieces(args);
    JoinedStart(args);
    assert args[..1] == [a];
    assert Joined([a]) == a by {
      assert [a][..0] == [];
    }
    assert Joined(args) == a + "/" + b;
    assert AllPieces(args) == base + path by {
      assert AllPieces([a]) == AllPieces([]) + Pieces(a);
    }
    var joined := Joined(args);
    assert joined[|joined| - 1] == b[|b| - 1];
    if !trailing && path != [] {
      JoinWithLast(path, '/');
      var lastSeg := path[|path| - 1];
      assert lastSeg[|lastSeg| - 1] in lastSeg;
      assert b[|b| - 1] == lastSeg[|lastSeg| - 1];
    }
    NormalizePlain(joined);
  }

  /** A clean segment is plain and is its own only segment. */
  lemma CleanPieces(segment: string)
    requires Clean(segment)
    ensures Plain(segment) && Pieces(segment) == [segment]
  {
    SplitNoSep(segment, '/');
    assert NonEmpty([segment]) == [segment] + NonEmpty([]);
  }

  /** Clean segments after any arguments contribute themselves. */
  lemma {:induction false} AllPiecesClean(prefix: seq<string>, segments: seq<string>)
    requires forall i :: 0 <= i < |segments| ==> Clean(segments[i])
    ensures AllPieces(prefix + segments) == AllPieces(prefix) + segments
    decreases |segments|
  {
    if segments == [] {
      assert prefix + segments == prefix;
    } else {
      var n := |segments|;
      var init := segments[..n - 1];
      var last := segments[n - 1];
      AllPiecesClean(prefix, init);
      AllPiecesCleanStep(prefix, init, last);
      assert init + [last] == segments;
    }
  }

  /** One more clean segment. */
  lemma AllPiecesCleanStep(prefix: seq<string>, init: seq<string>, last: string)
    requires AllPieces(prefix + init) == AllPieces(prefix) + init
    requires Clean(last)
    ensures AllPieces(prefix + (init + [last])) == AllPieces(prefix) + (init + [last])
  {
    CleanPieces(last);
    assert prefix + (init + [last]) == (prefix + init) + [last];
    AllPiecesAppend(prefix + init, last);
  }

  /** Clean segments after an argument whose segments are `base`. */
  lemma AllPiecesUnder(a: string, base: seq<string>, segments: seq<string>)
    requires Pieces(a) == base
    requires forall i :: 0 <= i < |segments| ==> Clean(segments[i])
    ensures AllPieces([a] + segments) == base + segments
  {
    AllPiecesClean([a], segments);
    AllPiecesOne(a);
  }

  /** One argument contributes its own segments. */
  lemma AllPiecesOne(a: string)
    ensures AllPieces([a]) == Pieces(a)
  {
    assert AllPieces([a]) == AllPieces([]) + Pieces(a);
  }

  /** Joining a clean absolute base path with clean segments appends the
      segments to the base, each after exactly one '/', with no trailing '/'. */
  lemma JoinSegmentsUnder(base: seq<string>, baseTrailing: bool, segments: seq<string>)
    requires forall i :: 0 <= i < |base| ==> Clean(base[i])
    requires |segments| >= 1
    requires forall i :: 0 <= i < |segments| ==> Clean(segments[i])
    ensures Join([Absolute(base, baseTrailing)] + segments) == Absolute(base + segments, false)
  {
    var a := Absolute(base, baseTrailing);
    var args := [a] + segments;
    AbsolutePieces(base, baseTrailing);
    forall i | 0 <= i < |args|
      ensures Plain(args[i])
    {
      if i > 0 {
        CleanPieces(segments[i - 1]);
      }
    }
    JoinedPieces(args);
    JoinedStart(args);
    AllPiecesUnder(a, base, segments);
    var joined := Joined(args);
    var n := |args|;
    var last := args[n - 1];
    JoinedStart(args[..n - 1]);
    assert args[..n - 1][0] == a;
    assert joined == Joined(args[..n - 1]) + "/" + last;
    assert last[|last| - 1] in last;
    assert joined[|joined| - 1] == last[|last| - 1];
    NormalizePlain(joined);
  }
}
