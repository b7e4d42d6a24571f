/** Splitting, joining and trimming of sequences, as Go's strings and bytes packages do. */
module Seqs {

  /** strings.Split on one separator: never empty, `Split([]) == [[]]`. */
  function Split<T(==)>(s: seq<T>, sep: T): (parts: seq<seq<T>>)
    ensures |parts| >= 1
  {
    if s == [] then [[]]
    else
      var rest := Split(s[1..], sep);
      if s[0] == sep then [[]] + rest else [[s[0]] + rest[0]] + rest[1..]
  }

  /** strings.Join. */
  function Join<T>(parts: seq<seq<T>>, sep: T): seq<T> {
    if parts == [] then []
    else if |parts| == 1 then parts[0]
    else parts[0] + [sep] + Join(parts[1..], sep)
  }

  ghost predicate Plain<T>(parts: seq<seq<T>>, sep: T) {
    forall p :: p in parts ==> sep !in p
  }

  lemma {:induction false} SplitOnePart<T>(s: seq<T>, sep: T)
    requires sep !in s
    ensures Split(s, sep) == [s]
  {
    if s != [] {
      assert s == [s[0]] + s[1..];
      SplitOnePart(s[1..], sep);
    }
  }

  lemma {:induction false} SplitConcat<T>(a: seq<T>, b: seq<T>, sep: T)
    ensures Split(a + [sep] + b, sep) == Split(a, sep) + Split(b, sep)
  {
    var s := a + [sep] + b;
    if a == [] {
      assert s[1..] == b;
    } else {
      assert s[1..] == a[1..] + [sep] + b;
      SplitConcat(a[1..], b, sep);
    }
  }

  /** One more element goes to the last part. */
  function Extended<T>(parts: seq<seq<T>>, x: T): seq<seq<T>>
    requires parts != []
  {
    parts[..|parts| - 1] + [parts[|parts| - 1] + [x]]
  }

  lemma {:induction false} SplitSnoc<T>(s: seq<T>, x: T, sep: T)
    requires x != sep
    ensures Split(s + [x], sep) == Extended(Split(s, sep), x)
  {
    if s == [] {
      assert [x][1..] == [] && [] + [x] == [x];
      assert Extended<T>([[]], x) == [[x]];
      SplitOnePart([x], sep);
      assert s + [x] == [x];
    } else {
      assert (s + [x])[1..] == s[1..] + [x] && (s + [x])[0] == s[0];
      SplitSnoc(s[1..], x, sep);
      ExtendedCons(Split(s[1..], sep), s[0], x);
    }
  }

  lemma ExtendedCons<T>(rest: seq<seq<T>>, y: T, x: T)
    requires rest != []
    ensures Extended([[]] + rest, x) == [[]] + Extended(rest, x)
    ensures Extended([[y] + rest[0]] + rest[1..], x) == [[y] + Extended(rest, x)[0]] + Extended(rest, x)[1..]
  {
    if |rest| == 1 {
      assert [y] + rest[0] + [x] == [y] + (rest[0] + [x]);
    }
  }

  /** Splitting undoes joining, for at least one part and parts without the separator. */
  lemma {:induction false} SplitJoin<T>(parts: seq<seq<T>>, sep: T)
    requires parts != [] && Plain(parts, sep)
    ensures Split(Join(parts, sep), sep) == parts
  {
    SplitOnePart(parts[0], sep);
    if |parts| > 1 {
      SplitJoin(parts[1..], sep);
      SplitConcat(parts[0], Join(parts[1..], sep), sep);
    }
  }

  lemma {:induction false} SplitIsPlain<T>(s: seq<T>, sep: T)
    ensures Plain(Split(s, sep), sep)
  {
    if s != [] {
      SplitIsPlain(s[1..], sep);
    }
  }

  lemma {:induction false} JoinConcat<T>(a: seq<seq<T>>, b: seq<seq<T>>, sep: T)
    requires a != [] && b != []
    ensures Join(a + b, sep) == Join(a, sep) + [sep] + Join(b, sep)
  {
    if |a| == 1 {
      assert (a + b)[1..] == b;
    } else {
      assert (a + b)[1..] == a[1..] + b;
      JoinConcat(a[1..], b, sep);
    }
  }

  /** strings.TrimLeftFunc. */
  function TrimLeft<T>(s: seq<T>, drop: T -> bool): seq<T> {
    if s != [] && drop(s[0]) then TrimLeft(s[1..], drop) else s
  }

  /** strings.TrimRightFunc. */
  function TrimRight<T>(s: seq<T>, drop: T -> bool): seq<T> {
    if s != [] && drop(s[|s| - 1]) then TrimRight(s[..|s| - 1], drop) else s
  }

  function Trim<T>(s: seq<T>, drop: T -> bool): seq<T> {
    TrimRight(TrimLeft(s, drop), drop)
  }

  /** Trimming changes nothing exactly when neither end is to be dropped. */
  lemma {:induction false} TrimKeeps<T>(s: seq<T>, drop: T -> bool)
    ensures Trim(s, drop) == s <==> s == [] || (!drop(s[0]) && !drop(s[|s| - 1]))
  {
    TrimLeftShrinks(s, drop);
    TrimRightShrinks(TrimLeft(s, drop), drop);
  }

  lemma {:induction false} TrimLeftShrinks<T>(s: seq<T>, drop: T -> bool)
    ensures |TrimLeft(s, drop)| <= |s|
    ensures |TrimLeft(s, drop)| == |s| <==> s == [] || !drop(s[0])
  {
    if s != [] && drop(s[0]) {
      TrimLeftShrinks(s[1..], drop);
    }
  }

  lemma {:induction false} TrimRightShrinks<T>(s: seq<T>, drop: T -> bool)
    ensures |TrimRight(s, drop)| <= |s|
    ensures TrimRight(s, drop) <= s
    ensures |TrimRight(s, drop)| == |s| <==> s == [] || !drop(s[|s| - 1])
    ensures forall i :: |TrimRight(s, drop)| <= i < |s| ==> drop(s[i])
    ensures TrimRight(s, drop) == [] || !drop(TrimRight(s, drop)[|TrimRight(s, drop)| - 1])
  {
    if s != [] && drop(s[|s| - 1]) {
      TrimRightShrinks(s[..|s| - 1], drop);
    }
  }
}
