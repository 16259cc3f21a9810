/** Helpers shared by the gateway: URL base rewriting, the merge of the
    packuments several registries return for one package, and the iterator
    that pairs each registry with its index. */
module Misc {
  import opened Json
  import opened Url
  import PosixPath

  // ---------------------------------------------------------------------
  // rewriteBase

  /** `rewriteBase(source, destination)`: a copy of `source` whose protocol,
      credentials, host and port are the destination's and whose path is
      the destination's base path joined with the source's path; search
      and hash stay the source's. */
  function RewriteBase(source: Url, destination: Url): (r: Url)
    ensures r.protocol == destination.protocol
    ensures r.username == destination.username && r.password == destination.password
    ensures r.hostname == destination.hostname && r.port == destination.port
    ensures r.Host() == destination.Host()
    ensures r.search == source.search && r.hash == source.hash
    ensures r.pathname == PosixPath.Join([destination.pathname, source.pathname])
  {
    var copy := source;
    var withProtocol := copy.(protocol := destination.protocol);
    var withUser := withProtocol.(username := destination.username);
    var withPassword := withUser.(password := destination.password);
    var withHost := WithHostOf(withPassword, destination);
    var withPort := WithPortOf(withHost, destination);
    withPort.(pathname := PosixPath.Join([destination.pathname, withPort.pathname]))
  }

  /** With clean absolute paths on both sides, the rewritten path is the
      destination's segments followed by the source's, one '/' apart. */
  lemma RewriteBaseCleanPaths(source: Url, destination: Url,
                              base: seq<string>, baseTrailing: bool, path: seq<string>, trailing: bool)
    requires forall i :: 0 <= i < |base| ==> PosixPath.Clean(base[i])
    requires forall i :: 0 <= i < |path| ==> PosixPath.Clean(path[i])
    requires destination.pathname == PosixPath.Absolute(base, baseTrailing)
    requires source.pathname == PosixPath.Absolute(path, trailing)
    ensures RewriteBase(source, destination).pathname == PosixPath.Render(true, base + path, trailing || path == [])
  {
    PosixPath.JoinAbsolute(base, baseTrailing, path, trailing);
  }

  /** The example of a registry under a path prefix: "/lodash" rewritten
      onto a base whose path is "/prefix/" has the path "/prefix/lodash". */
  lemma RewriteBaseUnderPrefix(source: Url, destination: Url)
    requires destination.pathname == "/prefix/" && source.pathname == "/lodash"
    ensures RewriteBase(source, destination).pathname == "/prefix/lodash"
  {
    assert PosixPath.Clean("prefix") && PosixPath.Clean("lodash");
    assert PosixPath.Absolute(["prefix"], true) == "/prefix/";
    assert PosixPath.Absolute(["lodash"], false) == "/lodash";
    RewriteBaseCleanPaths(source, destination, ["prefix"], true, ["lodash"], false);
    assert PosixPath.JoinWith(["prefix", "lodash"], '/') == "prefix" + "/" + "lodash";
  }

  // ---------------------------------------------------------------------
  // mergePackuments

  /** The fields merged key by key, each input's keys overwriting the
      accumulated ones. */
  const KeyedFields: set<string> := {"versions", "dist-tags", "users", "author"}

  /** The fields taken from the input when truthy there, else kept from the
      accumulator. */
  const TruthyFields: set<string> :=
    {"name", "time", "bugs", "description", "homepage", "license", "readme", "readmeFilename", "repository"}

  /** The keys of every merged document: the fields above and an empty
      `contributors` (a fresh `Set`, which serialises as `{}`). */
  const MergedFields: set<string> := KeyedFields + TruthyFields + {"contributors"}

  /** The value field `field` takes when one document's `value` is merged
      over the accumulated `acc`. */
  function FieldMerge(field: string, acc: Value, value: Value): Value {
    if field in KeyedFields then Assign(acc, value)
    else if field in TruthyFields then (if Truthy(value) then value else acc)
    else Object(map[])
  }

  /** One call of the `reduceRight` callback: merges `packument` over `acc`. */
  function MergeStep(acc: Obj, packument: Obj): Obj {
    map field | field in MergedFields :: FieldMerge(field, Get(acc, field), Get(packument, field))
  }

  /** `packuments.reduceRight(step, acc)`: folds from the last document to
      the first, so that earlier documents are merged over later ones. */
  function MergeOnto(acc: Obj, packuments: seq<Obj>): Obj
    decreases |packuments|
  {
    if packuments == [] then acc
    else MergeStep(MergeOnto(acc, packuments[1..]), packuments[0])
  }

  /** `mergePackuments(packuments)`: the fold above from `{}`. No input
      gives `{}`; otherwise exactly the merged fields, with an empty
      `contributors`. */
  function MergePackuments(packuments: seq<Obj>): (r: Obj)
    ensures packuments == [] ==> r == map[]
    ensures packuments != [] ==> r.Keys == MergedFields && Get(r, "contributors") == Object(map[])
  {
    OntoKeys(map[], packuments);
    MergeOnto(map[], packuments)
  }

  /** The same fold restricted to one field, from that field's value `acc`. */
  function FieldFold(field: string, acc: Value, packuments: seq<Obj>): Value
    decreases |packuments|
  {
    if packuments == [] then acc
    else FieldMerge(field, FieldFold(field, acc, packuments[1..]), Get(packuments[0], field))
  }

  lemma FieldKinds()
    ensures KeyedFields !! TruthyFields
    ensures "contributors" !in KeyedFields && "contributors" !in TruthyFields
  {
  }

  /** One step has exactly the merged fields. */
  lemma StepKeys(acc: Obj, packument: Obj)
    ensures MergeStep(acc, packument).Keys == MergedFields
  {
  }

  lemma StepGet(acc: Obj, packument: Obj, field: string)
    ensures MergeStep(acc, packument).Keys == MergedFields
    ensures field in MergedFields ==>
      Get(MergeStep(acc, packument), field) == FieldMerge(field, Get(acc, field), Get(packument, field))
  {
  }

  /** What one `reduceRight` step does to each kind of field: a keyed
      field holds the own properties of both sides but `__proto__`, the
      document's winning; a truthy field holds the document's value when truthy and
      the accumulated one otherwise; `contributors` is empty. */
  lemma StepFields(acc: Obj, packument: Obj, field: string)
    ensures field in KeyedFields ==>
      OwnProperties(Get(MergeStep(acc, packument), field)) ==
        (OwnProperties(Get(acc, field)) + OwnProperties(Get(packument, field))) - {ProtoKey}
    ensures field in TruthyFields ==>
      Get(MergeStep(acc, packument), field) ==
        if Truthy(Get(packument, field)) then Get(packument, field) else Get(acc, field)
    ensures Get(MergeStep(acc, packument), "contributors") == Object(map[])
  {
    FieldKinds();
    StepGet(acc, packument, field);
    StepGet(acc, packument, "contributors");
  }

  /** Folding no document leaves `acc` as it is; folding any gives
      exactly the merged fields, with an empty `contributors`. */
  lemma OntoKeys(acc: Obj, packuments: seq<Obj>)
    ensures packuments == [] ==> MergeOnto(acc, packuments) == acc
    ensures packuments != [] ==> MergeOnto(acc, packuments).Keys == MergedFields
    ensures packuments != [] ==> Get(MergeOnto(acc, packuments), "contributors") == Object(map[])
  {
    if packuments != [] {
      FieldKinds();
      StepGet(MergeOnto(acc, packuments[1..]), packuments[0], "contributors");
    }
  }

  /** Each field of the fold is the fold of that field. */
  lemma {:induction false} FoldGet(acc: Obj, packuments: seq<Obj>, field: string)
    requires field in MergedFields
    ensures Get(MergeOnto(acc, packuments), field) == FieldFold(field, Get(acc, field), packuments)
    decreases |packuments|
  {
    if packuments != [] {
      FoldGet(acc, packuments[1..], field);
      StepGet(MergeOnto(acc, packuments[1..]), packuments[0], field);
    }
  }

  /** `Object.assign` copies a string's characters under their indices: a
      document whose `author` is the string "Bob" merges to an `author`
      object {0: "B", 1: "o", 2: "b"}. */
  lemma MergeStringAuthor(packument: Obj)
    requires Get(packument, "author") == Str("Bob")
    ensures Get(MergePackuments([packument]), "author") ==
      Object(map["0" := Str("B"), "1" := Str("o"), "2" := Str("b")])
  {
    calc {
      MergePackuments([packument]);
      MergeStep(MergeOnto(map[], [packument][1..]), packument);
      { assert [packument][1..] == []; }
      MergeStep(MergeOnto(map[], []), packument);
      MergeStep(map[], packument);
    }
    StepGet(map[], packument, "author");
    AssignString();
  }

  /** The properties of field `field` of input `i`. */
  function KeysAt(packuments: seq<Obj>, i: nat, field: string): Obj
    requires i < |packuments|
  {
    OwnProperties(Get(packuments[i], field))
  }

  lemma KeysAtTail(packuments: seq<Obj>, field: string)
    requires packuments != []
    ensures forall i :: 0 <= i < |packuments| - 1 ==>
      KeysAt(packuments[1..], i, field) == KeysAt(packuments, i + 1, field)
  {
  }

  lemma {:induction false} FoldKeyedPresent(packuments: seq<Obj>, field: string, key: string)
    requires field in KeyedFields
    ensures key in OwnProperties(FieldFold(field, Undefined, packuments)) <==>
      key != ProtoKey && exists i :: 0 <= i < |packuments| && key in KeysAt(packuments, i, field)
    decreases |packuments|
  {
    if packuments != [] {
      var rest := packuments[1..];
      FoldKeyedPresent(rest, field, key);
      KeysAtTail(packuments, field);
      assert OwnProperties(FieldFold(field, Undefined, packuments)) ==
        (OwnProperties(FieldFold(field, Undefined, rest)) + KeysAt(packuments, 0, field)) - {ProtoKey};
      if key in OwnProperties(FieldFold(field, Undefined, rest)) {
        var i :| 0 <= i < |rest| && key in KeysAt(rest, i, field);
        assert key in KeysAt(packuments, i + 1, field);
      }
      if exists i :: 0 <= i < |packuments| && key in KeysAt(packuments, i, field) {
        var i :| 0 <= i < |packuments| && key in KeysAt(packuments, i, field);
        if i > 0 {
          assert key in KeysAt(rest, i - 1, field);
        }
      }
    }
  }

  lemma {:induction false} FoldKeyedValue(packuments: seq<Obj>, field: string, key: string, i: nat)
    requires field in KeyedFields
    requires i < |packuments| && key in KeysAt(packuments, i, field)
    requires forall j :: 0 <= j < i ==> key !in KeysAt(packuments, j, field)
    ensures key in OwnProperties(FieldFold(field, Undefined, packuments)) <==> key != ProtoKey
    ensures key != ProtoKey ==>
      OwnProperties(FieldFold(field, Undefined, packuments))[key] == KeysAt(packuments, i, field)[key]
    decreases i
  {
    if i > 0 {
      var rest := packuments[1..];
      KeysAtTail(packuments, field);
      assert key !in KeysAt(packuments, 0, field);
      FoldKeyedValue(rest, field, key, i - 1);
    }
  }

  /** A key of a keyed field (`versions`, `dist-tags`, `users`, `author`)
      after merging: present iff some input has it and it is not
      `__proto__`. */
  lemma MergeKeyedPresent(packuments: seq<Obj>, field: string, key: string)
    requires field in KeyedFields
    ensures key in OwnProperties(Get(MergePackuments(packuments), field)) <==>
      key != ProtoKey && exists i :: 0 <= i < |packuments| && key in KeysAt(packuments, i, field)
  {
    FoldGet(map[], packuments, field);
    FoldKeyedPresent(packuments, field, key);
  }

  /** ... and with the value of the lowest-index input that has it. */
  lemma MergeKeyedValue(packuments: seq<Obj>, field: string, key: string, i: nat)
    requires field in KeyedFields
    requires i < |packuments| && key in KeysAt(packuments, i, field)
    requires forall j :: 0 <= j < i ==> key !in KeysAt(packuments, j, field)
    ensures key in OwnProperties(Get(MergePackuments(packuments), field)) <==> key != ProtoKey
    ensures key != ProtoKey ==>
      OwnProperties(Get(MergePackuments(packuments), field))[key] == KeysAt(packuments, i, field)[key]
  {
    FoldGet(map[], packuments, field);
    FoldKeyedValue(packuments, field, key, i);
  }

  lemma {:induction false} FoldTruthyNone(packuments: seq<Obj>, field: string)
    requires field in TruthyFields
    requires forall i :: 0 <= i < |packuments| ==> !Truthy(Get(packuments[i], field))
    ensures FieldFold(field, Undefined, packuments) == Undefined
    decreases |packuments|
  {
    if packuments != [] {
      FieldKinds();
      var rest := packuments[1..];
      assert forall i :: 0 <= i < |rest| ==> rest[i] == packuments[i + 1];
      FoldTruthyNone(rest, field);
    }
  }

  lemma {:induction false} FoldTruthyFirst(packuments: seq<Obj>, field: string, i: nat)
    requires field in TruthyFields
    requires i < |packuments| && Truthy(Get(packuments[i], field))
    requires forall j :: 0 <= j < i ==> !Truthy(Get(packuments[j], field))
    ensures FieldFold(field, Undefined, packuments) == Get(packuments[i], field)
    decreases i
  {
    FieldKinds();
    if i > 0 {
      var rest := packuments[1..];
      assert forall j :: 0 <= j < |rest| ==> rest[j] == packuments[j + 1];
      FoldTruthyFirst(rest, field, i - 1);
    }
  }

  /** A truthy field (`name`, `time`, `description`, ...) after merging is
      undefined when it is truthy in no input ... */
  lemma MergeTruthyNone(packuments: seq<Obj>, field: string)
    requires field in TruthyFields
    requires forall i :: 0 <= i < |packuments| ==> !Truthy(Get(packuments[i], field))
    ensures Get(MergePackuments(packuments), field) == Undefined
  {
    FoldGet(map[], packuments, field);
    FoldTruthyNone(packuments, field);
  }

  /** ... and otherwise the value of the lowest-index input where it is truthy. */
  lemma MergeTruthyFirst(packuments: seq<Obj>, field: string, i: nat)
    requires field in TruthyFields
    requires i < |packuments| && Truthy(Get(packuments[i], field))
    requires forall j :: 0 <= j < i ==> !Truthy(Get(packuments[j], field))
    ensures Get(MergePackuments(packuments), field) == Get(packuments[i], field)
  {
    FoldGet(map[], packuments, field);
    FoldTruthyFirst(packuments, field, i);
  }

  lemma FieldMergeIdempotent(field: string, acc: Value, value: Value)
    ensures FieldMerge(field, FieldMerge(field, acc, value), value) == FieldMerge(field, acc, value)
  {
    if field in KeyedFields {
      assert OwnProperties(Assign(acc, value)) == (OwnProperties(acc) + OwnProperties(value)) - {ProtoKey};
    }
  }

  /** Merging the same document twice in a row is merging it once. */
  lemma MergeStepIdempotent(acc: Obj, packument: Obj)
    ensures MergeStep(MergeStep(acc, packument), packument) == MergeStep(acc, packument)
  {
    var once := MergeStep(acc, packument);
    var twice := MergeStep(once, packument);
    forall field | field in MergedFields
      ensures twice[field] == once[field]
    {
      StepGet(acc, packument, field);
      StepGet(once, packument, field);
      FieldMergeIdempotent(field, Get(acc, field), Get(packument, field));
    }
    StepKeys(acc, packument);
    StepKeys(once, packument);
  }

  /** Folding onto a concatenation folds the right part first. */
  lemma {:induction false} MergeOntoAppend(acc: Obj, left: seq<Obj>, right: seq<Obj>)
    ensures MergeOnto(acc, left + right) == MergeOnto(MergeOnto(acc, right), left)
    decreases |left|
  {
    if left == [] {
      assert left + right == right;
    } else {
      var whole := left + right;
      assert whole[0] == left[0] && whole[1..] == left[1..] + right;
      var tail := MergeOnto(acc, left[1..] + right);
      assert MergeOnto(acc, whole) == MergeStep(tail, left[0]);
      MergeOntoAppend(acc, left[1..], right);
      assert tail == MergeOnto(MergeOnto(acc, right), left[1..]);
    }
  }

  /** `n` copies of a document. */
  function Copies(packument: Obj, n: nat): (r: seq<Obj>)
    ensures |r| == n && forall i :: 0 <= i < n ==> r[i] == packument
  {
    seq(n, _ => packument)
  }

  /** Folding several copies of one document onto `acc` is one fold step. */
  lemma {:induction false} MergeCopies(acc: Obj, packument: Obj, n: nat)
    requires n >= 1
    ensures MergeOnto(acc, Copies(packument, n)) == MergeStep(acc, packument)
    decreases n
  {
    if n > 1 {
      var copies := Copies(packument, n);
      assert copies[1..] == Copies(packument, n - 1);
      calc {
        MergeOnto(acc, copies);
        MergeStep(MergeOnto(acc, copies[1..]), copies[0]);
        { MergeCopies(acc, packument, n - 1); }
        MergeStep(MergeStep(acc, packument), packument);
        { MergeStepIdempotent(acc, packument); }
        MergeStep(acc, packument);
      }
    } else {
      assert Copies(packument, n)[1..] == [];
    }
  }

  /** The documents `packuments`, the i-th repeated `counts[i]` times. */
  function Expand(packuments: seq<Obj>, counts: seq<nat>): seq<Obj>
    requires |counts| == |packuments|
    decreases |packuments|
  {
    if packuments == [] then []
    else
      var n := |packuments| - 1;
      Expand(packuments[..n], counts[..n]) + Copies(packuments[n], counts[n])
  }

  /** Repeating documents in place does not change the merge. */
  lemma {:induction false} MergeExpand(acc: Obj, packuments: seq<Obj>, counts: seq<nat>)
    requires |counts| == |packuments|
    requires forall i :: 0 <= i < |counts| ==> counts[i] >= 1
    ensures MergeOnto(acc, Expand(packuments, counts)) == MergeOnto(acc, packuments)
    decreases |packuments|
  {
    if packuments != [] {
      var n := |packuments| - 1;
      var last := packuments[n];
      var init := packuments[..n];
      var step := MergeStep(acc, last);
      calc {
        MergeOnto(acc, Expand(packuments, counts));
        { MergeOntoAppend(acc, Expand(init, counts[..n]), Copies(last, counts[n])); }
        MergeOnto(MergeOnto(acc, Copies(last, counts[n])), Expand(init, counts[..n]));
        { MergeCopies(acc, last, counts[n]); }
        MergeOnto(step, Expand(init, counts[..n]));
        { MergeExpand(step, init, counts[..n]); }
        MergeOnto(step, init);
        { assert MergeOnto(acc, [last]) == step by { assert [last][1..] == []; }
          MergeOntoAppend(acc, init, [last]); }
        MergeOnto(acc, init + [last]);
        { assert init + [last] == packuments; }
        MergeOnto(acc, packuments);
      }
    }
  }

  /** Expanding one more document appends its copies. */
  lemma ExpandAppend(packuments: seq<Obj>, counts: seq<nat>, packument: Obj, n: nat)
    requires |counts| == |packuments|
    ensures Expand(packuments + [packument], counts + [n]) == Expand(packuments, counts) + Copies(packument, n)
  {
    assert (packuments + [packument])[..|packuments|] == packuments;
    assert (counts + [n])[..|counts|] == counts;
  }

  // ---------------------------------------------------------------------
  // natural, Zip, indexed

  /** The state of an iterator: an array's iterator over `items` at index
      `next`, or the `natural()` generator about to yield `i`. */
  datatype Cursor<T> = Elements(items: seq<T>, next: nat) | Naturals(i: nat)

  /** A value an iterator yields: an element, or a natural number. */
  datatype Yield<T> = Element(value: T) | Index(n: nat)

  /** The outcome of one `next()` call on an iterator. */
  datatype Step<T> = Yielded(value: Yield<T>, rest: Cursor<T>) | Exhausted(rest: Cursor<T>)

  /** `natural()`: the generator that yields 0, 1, 2, ... and never ends. */
  function Natural<T>(): Cursor<T> {
    Naturals(0)
  }

  /** One `next()`: an array's iterator yields its elements in order, then
      reports done forever; `natural()` yields `i` and moves to `i + 1`. */
  function Advance<T>(c: Cursor<T>): (r: Step<T>)
    ensures c.Naturals? ==> r.Yielded?
    ensures c.Elements? ==> (r.Yielded? <==> c.next < |c.items|)
    ensures r.Exhausted? ==> r.rest == c
  {
    match c
    case Elements(items, next) =>
      if next < |items| then Yielded(Element(items[next]), Elements(items, next + 1))
      else Exhausted(c)
    case Naturals(i) => Yielded(Index(i), Naturals(i + 1))
  }

  /** The values of up to `k` successive `next()` calls on `c`, stopping
      at the first that reports done. */
  function Take<T>(c: Cursor<T>, k: nat): seq<Yield<T>>
    decreases k
  {
    if k == 0 then []
    else match Advance(c)
      case Exhausted(_) => []
      case Yielded(v, rest) => [v] + Take(rest, k - 1)
  }

  /** `natural()` from `i` never ends: any `k` calls yield `k` values. */
  lemma {:induction false} TakeNaturalsLength<T>(i: nat, k: nat)
    ensures |Take(Cursor<T>.Naturals(i), k)| == k
    decreases k
  {
    if k > 0 {
      TakeNaturalsLength<T>(i + 1, k - 1);
    }
  }

  /** The j-th call on `natural()` from `i` yields `i + j`. */
  lemma {:induction false} TakeNaturalsAt<T>(i: nat, k: nat, j: nat)
    requires j < k
    ensures j < |Take(Cursor<T>.Naturals(i), k)| && Take(Cursor<T>.Naturals(i), k)[j] == Index(i + j)
    decreases k
  {
    TakeNaturalsLength<T>(i, k);
    if j > 0 {
      TakeNaturalsAt<T>(i + 1, k - 1, j - 1);
    }
  }

  /** `natural()` yields 0, 1, 2, ... in order. */
  lemma NaturalCounts<T>(k: nat, j: nat)
    requires j < k
    ensures |Take(Natural<T>(), k)| == k && Take(Natural<T>(), k)[j] == Index(j)
  {
    TakeNaturalsLength<T>(0, k);
    TakeNaturalsAt<T>(0, k, j);
  }

  /** An array's iterator at `next` yields what is left of the array, up
      to `k` of it, then nothing more. */
  lemma {:induction false} TakeElementsLength<T>(items: seq<T>, next: nat, k: nat)
    requires next <= |items|
    ensures |Take(Elements(items, next), k)| == if k < |items| - next then k else |items| - next
    decreases k
  {
    if k > 0 && next < |items| {
      TakeElementsLength(items, next + 1, k - 1);
    }
  }

  /** The j-th call on an array's iterator at `next` yields `items[next + j]`. */
  lemma {:induction false} TakeElementsAt<T>(items: seq<T>, next: nat, k: nat, j: nat)
    requires j < k && next + j < |items|
    ensures j < |Take(Elements(items, next), k)| && Take(Elements(items, next), k)[j] == Element(items[next + j])
    decreases k
  {
    TakeElementsLength(items, next, k);
    if j > 0 {
      TakeElementsAt(items, next + 1, k - 1, j - 1);
    }
  }

  /** Whether every iterator yields on its next `next()`. */
  predicate AllYield<T>(iterators: seq<Cursor<T>>) {
    forall i :: 0 <= i < |iterators| ==> Advance(iterators[i]).Yielded?
  }

  /** The values the iterators yield on their next `next()`, one each. */
  function Yields<T>(iterators: seq<Cursor<T>>): (r: seq<Yield<T>>)
    requires AllYield(iterators)
    ensures |r| == |iterators|
  {
    seq(|iterators|, i requires 0 <= i < |iterators| => Advance(iterators[i]).value)
  }

  /** Every iterator after its next `next()`. */
  function AdvancedAll<T>(iterators: seq<Cursor<T>>): (r: seq<Cursor<T>>)
    ensures |r| == |iterators|
  {
    seq(|iterators|, i requires 0 <= i < |iterators| => Advance(iterators[i]).rest)
  }

  /** The first iterator, from `from` on, that reports done. */
  function FirstDone<T>(iterators: seq<Cursor<T>>, from: nat): (j: nat)
    requires from < |iterators|
    requires exists i :: from <= i < |iterators| && Advance(iterators[i]).Exhausted?
    ensures from <= j < |iterators| && Advance(iterators[j]).Exhausted?
    ensures forall i :: from <= i < j ==> Advance(iterators[i]).Yielded?
    decreases |iterators| - from
  {
    if Advance(iterators[from]).Exhausted? then from else FirstDone(iterators, from + 1)
  }

  /** The iterators `Zip` advances together. */
  class Zip<T> {
    var done: bool
    var iterators: seq<Cursor<T>>

    constructor (iterators: seq<Cursor<T>>)
      ensures this.done == false && this.iterators == iterators
    {
      this.done := false;
      this.iterators := iterators;
    }

    /** `next()`: once done, done forever without advancing anything;
        otherwise advances each iterator in turn, and either returns one
        value per iterator or becomes done at the first exhausted one,
        leaving the iterators after it where they were. */
    method Next() returns (values: seq<Yield<T>>, isDone: bool)
      modifies this
      ensures old(done) ==> isDone && done && iterators == old(iterators) && values == []
      ensures !old(done) ==> (isDone <==> !AllYield(old(iterators))) && done == isDone
      ensures !old(done) && !isDone ==> values == Yields(old(iterators)) && iterators == AdvancedAll(old(iterators))
      ensures !old(done) && isDone ==>
        iterators == AdvancedAll(old(iterators))[..FirstDone(old(iterators), 0)] +
          old(iterators)[FirstDone(old(iterators), 0)..]
      ensures !isDone ==> |values| == |iterators|
    {
      if done {
        return [], true;
      }
      ghost var start := iterators;
      var advanced := iterators;
      values := [];
      var k := 0;
      while k < |advanced|
        invariant 0 <= k <= |advanced| == |start| && !done
        invariant |values| == k
        invariant forall i :: 0 <= i < k ==> Advance(start[i]).Yielded? && values[i] == Advance(start[i]).value
        invariant forall i :: 0 <= i < k ==> advanced[i] == Advance(start[i]).rest
        invariant forall i :: k <= i < |advanced| ==> advanced[i] == start[i]
      {
        match Advance(advanced[k])
        case Exhausted(rest) =>
          iterators := advanced[k := rest];
          done := true;
          assert FirstDone(start, 0) == k;
          assert iterators == AdvancedAll(start)[..k] + start[k..];
          return [], true;
        case Yielded(v, rest) =>
          advanced := advanced[k := rest];
          values := values + [v];
          k := k + 1;
      }
      iterators := advanced;
      assert iterators == AdvancedAll(start);
      return values, false;
    }
  }

  /** `indexed(xs)`: zips the array's iterator with `natural()`. */
  method Indexed<T>(xs: seq<T>) returns (z: Zip<T>)
    ensures fresh(z) && !z.done && z.iterators == [Elements(xs, 0), Natural()]
  {
    z := new Zip([Elements(xs, 0), Natural()]);
  }

  /** One pass over the two iterators of `indexed(xs)` after `k` passes:
      the pair `[xs[k], k]` while `k < |xs|`; at the end, done at the
      array's iterator, so that `natural()` is left where it was. */
  lemma IndexedPass<T>(xs: seq<T>, k: nat)
    requires k <= |xs|
    ensures var its: seq<Cursor<T>> := [Elements(xs, k), Naturals(k)];
      && (k < |xs| ==> AllYield(its) && Yields(its) == [Element(xs[k]), Index(k)])
      && (k < |xs| ==> AdvancedAll(its) == [Elements(xs, k + 1), Naturals(k + 1)])
      && (k == |xs| ==> !AllYield(its) && FirstDone(its, 0) == 0)
  {
    var its: seq<Cursor<T>> := [Elements(xs, k), Naturals(k)];
    assert Advance(its[1]) == Yielded(Index(k), Naturals(k + 1));
    if k == |xs| {
      assert Advance(its[0]).Exhausted?;
    }
  }

  /** Iterating `indexed(xs)` to the end, as a `for ... of` loop does:
      yields `[xs[i], i]` for every index in order, then reports done, and
      the `natural()` iterator is not advanced past `|xs|`. */
  method IndexedPairs<T>(xs: seq<T>) returns (pairs: seq<seq<Yield<T>>>)
    ensures |pairs| == |xs|
    ensures forall i :: 0 <= i < |xs| ==> pairs[i] == [Element(xs[i]), Index(i)]
  {
    var z := Indexed(xs);
    pairs := [];
    while true
      invariant |pairs| <= |xs|
      invariant !z.done && z.iterators == [Elements(xs, |pairs|), Naturals(|pairs|)]
      invariant forall i :: 0 <= i < |pairs| ==> pairs[i] == [Element(xs[i]), Index(i)]
      decreases |xs| - |pairs|
    {
      IndexedPass(xs, |pairs|);
      var values, isDone := z.Next();
      if isDone {
        break;
      }
      pairs := pairs + [values];
    }
  }
}
