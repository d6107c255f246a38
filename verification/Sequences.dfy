/** Sequence vocabulary shared by the text-processing components. */
module Sequences {

  datatype Option<+T> = None | Some(value: T)

  ghost predicate NoRepeats<T>(s: seq<T>) {
    forall i, j :: 0 <= i < j < |s| ==> s[i] != s[j]
  }

  /** Concatenation of a list of pieces, in order. */
  function Flatten<T>(pieces: seq<seq<T>>): seq<T> {
    if pieces == [] then [] else Flatten(pieces[..|pieces| - 1]) + pieces[|pieces| - 1]
  }

  lemma FlattenSnoc<T>(pieces: seq<seq<T>>, piece: seq<T>)
    ensures Flatten(pieces + [piece]) == Flatten(pieces) + piece
  {
    assert (pieces + [piece])[..|pieces|] == pieces;
  }

  /** `s.split(sep)` for a one-element separator: always at least one part. */
  function Split<T(==)>(s: seq<T>, sep: T): (parts: seq<seq<T>>)
    ensures |parts| >= 1
  {
    if s == [] then [[]]
    else
      var rest := Split(s[1..], sep);
      if s[0] == sep then [[]] + rest else [[s[0]] + rest[0]] + rest[1..]
  }

  /** `parts.join(sep)`. */
  function Intercalate<T>(parts: seq<seq<T>>, sep: T): seq<T> {
    if parts == [] then []
    else if |parts| == 1 then parts[0]
    else parts[0] + [sep] + Intercalate(parts[1..], sep)
  }

  ghost predicate NoneContains<T(!new)>(parts: seq<seq<T>>, sep: T) {
    forall i :: 0 <= i < |parts| ==> sep !in parts[i]
  }

  lemma {:induction false} SplitPartsAreFree<T(!new)>(s: seq<T>, sep: T)
    ensures NoneContains(Split(s, sep), sep)
  {
    if s != [] {
      SplitPartsAreFree(s[1..], sep);
    }
  }

  lemma {:induction false} JoinOfSplit<T>(s: seq<T>, sep: T)
    ensures Intercalate(Split(s, sep), sep) == s
  {
    if s != [] {
      JoinOfSplit(s[1..], sep);
      var rest := Split(s[1..], sep);
      if s[0] == sep {
        assert ([[]] + rest)[1..] == rest;
      } else {
        assert ([[s[0]] + rest[0]] + rest[1..])[1..] == rest[1..];
        if |rest| > 1 {
          assert ([s[0]] + rest[0]) + [sep] + Intercalate(rest[1..], sep)
              == [s[0]] + (rest[0] + [sep] + Intercalate(rest[1..], sep));
        }
      }
    }
  }

  lemma {:induction false} SplitLeading<T>(part: seq<T>, rest: seq<T>, sep: T)
    requires sep !in part
    ensures Split(part, sep) == [part]
    ensures Split(part + [sep] + rest, sep) == [part] + Split(rest, sep)
  {
    if part == [] {
      assert ([] + [sep] + rest)[1..] == rest;
    } else {
      SplitLeading(part[1..], rest, sep);
      assert (part + [sep] + rest)[1..] == part[1..] + [sep] + rest;
      assert [part[0]] + part[1..] == part;
    }
  }

  lemma {:induction false} SplitOfJoin<T(!new)>(parts: seq<seq<T>>, sep: T)
    requires parts != [] && NoneContains(parts, sep)
    ensures Split(Intercalate(parts, sep), sep) == parts
  {
    SplitLeading(parts[0], Intercalate(parts[1..], sep), sep);
    if |parts| > 1 {
      SplitOfJoin(parts[1..], sep);
    }
  }

  /** Lengthening the last part lengthens the joined text by the same suffix. */
  lemma {:induction false} JoinExtendLast<T>(parts: seq<seq<T>>, last: seq<T>, more: seq<T>, sep: T)
    ensures Intercalate(parts + [last + more], sep) == Intercalate(parts + [last], sep) + more
  {
    if parts != [] {
      JoinExtendLast(parts[1..], last, more, sep);
      assert (parts + [last + more])[1..] == parts[1..] + [last + more];
      assert (parts + [last])[1..] == parts[1..] + [last];
    }
  }

  /** Opening a new, empty last part appends exactly one separator. */
  lemma {:induction false} JoinOpenPart<T>(parts: seq<seq<T>>, sep: T)
    requires parts != []
    ensures Intercalate(parts + [[]], sep) == Intercalate(parts, sep) + [sep]
  {
    if |parts| == 1 {
      assert (parts + [[]])[1..] == [[]];
    } else {
      JoinOpenPart(parts[1..], sep);
      assert (parts + [[]])[1..] == parts[1..] + [[]];
    }
  }
}
