/**
 * Python's `bytes.split(sep)` and `sep.join(parts)` for a one-byte separator, and
 * what the token reader derives from them: the last field and the join of all the
 * fields before it.
 */
module Fields {
  import opened Basics

  /** `s.split(sep)`: the maximal runs between separators; always at least one field. */
  function Split(s: seq<byte>, sep: byte): (parts: seq<seq<byte>>)
    ensures |parts| >= 1
    ensures forall i | 0 <= i < |parts| :: sep !in parts[i]
    decreases |s|
  {
    if s == [] then [[]]
    else
      var rest := Split(s[1..], sep);
      if s[0] == sep then [[]] + rest
      else [[s[0]] + rest[0]] + rest[1..]
  }

  /** No field holds the separator. */
  predicate SeparatorFree(parts: seq<seq<byte>>, sep: byte)
  {
    forall i | 0 <= i < |parts| :: sep !in parts[i]
  }

  /** `sep.join(parts)`. Splitting the join of separator-free fields gives the fields back. */
  function Join(parts: seq<seq<byte>>, sep: byte): (s: seq<byte>)
    ensures |parts| >= 1 && SeparatorFree(parts, sep) ==> Split(s, sep) == parts
    decreases |parts|
  {
    if |parts| == 0 then []
    else if |parts| == 1 then
      (if sep !in parts[0] then SplitNoSep(parts[0], sep); parts[0] else parts[0])
    else
      var rest := Join(parts[1..], sep);
      if sep !in parts[0] then
        SplitPrepend(parts[0], sep, rest);
        parts[0] + [sep] + rest
      else parts[0] + [sep] + rest
  }

  /** A separator-free field, the separator and more text split as that field followed by
      the fields of the text. */
  lemma {:induction false} SplitPrepend(a: seq<byte>, sep: byte, t: seq<byte>)
    requires sep !in a
    ensures Split(a + [sep] + t, sep) == [a] + Split(t, sep)
    decreases |a|
  {
    var u := a + [sep] + t;
    if a == [] {
      assert u == [sep] + t && u[1..] == t;
    } else {
      assert u[1..] == a[1..] + [sep] + t;
      SplitPrepend(a[1..], sep, t);
      assert [a[0]] + a[1..] == a;
    }
  }

  /** Joining the fields again restores the original. */
  lemma {:induction false} JoinSplit(s: seq<byte>, sep: byte)
    ensures Join(Split(s, sep), sep) == s
    decreases |s|
  {
    if s != [] {
      var rest := Split(s[1..], sep);
      JoinSplit(s[1..], sep);
      var parts := Split(s, sep);
      if s[0] == sep {
        assert parts[1..] == rest;
      } else if |rest| == 1 {
        assert parts == [[s[0]] + rest[0]];
      } else {
        assert parts[1..] == rest[1..];
        assert Join(rest, sep) == rest[0] + [sep] + Join(rest[1..], sep);
      }
    }
  }

  /** A string without separators is a single field. */
  lemma {:induction false} SplitNoSep(t: seq<byte>, sep: byte)
    requires sep !in t
    ensures Split(t, sep) == [t]
    decreases |t|
  {
    if t != [] {
      SplitNoSep(t[1..], sep);
      assert [t[0]] + t[1..] == t;
    }
  }

  /** Appending a separator and a separator-free tail adds exactly that tail as a last field. */
  lemma {:induction false} SplitAppend(s: seq<byte>, sep: byte, t: seq<byte>)
    requires sep !in t
    ensures Split(s + [sep] + t, sep) == Split(s, sep) + [t]
    decreases |s|
  {
    var u := s + [sep] + t;
    if s == [] {
      assert u == [sep] + t && u[1..] == t;
      SplitNoSep(t, sep);
    } else {
      assert u[1..] == s[1..] + [sep] + t;
      SplitAppend(s[1..], sep, t);
      var rest := Split(s[1..], sep);
      assert (rest + [t])[0] == rest[0];
      assert (rest + [t])[1..] == rest[1..] + [t];
    }
  }

  lemma {:induction false} JoinAppend(a: seq<seq<byte>>, x: seq<byte>, sep: byte)
    requires |a| >= 1
    ensures Join(a + [x], sep) == Join(a, sep) + [sep] + x
    decreases |a|
  {
    if |a| > 1 {
      assert (a + [x])[1..] == a[1..] + [x];
      JoinAppend(a[1..], x, sep);
    } else {
      assert (a + [x])[1..] == [x];
    }
  }

  /** Where the last field starts: a string without separators is its own last field;
      otherwise it is the join of the other fields, the separator, and the last field. */
  lemma LastField(s: seq<byte>, sep: byte)
    ensures sep !in s ==> Split(s, sep) == [s]
    ensures sep in s ==> |Split(s, sep)| >= 2
    ensures sep in s ==>
      s == Join(Split(s, sep)[..|Split(s, sep)| - 1], sep) + [sep] + Split(s, sep)[|Split(s, sep)| - 1]
  {
    if sep !in s {
      SplitNoSep(s, sep);
    } else {
      LastFieldSep(s, sep, Split(s, sep));
    }
  }

  lemma LastFieldSep(s: seq<byte>, sep: byte, parts: seq<seq<byte>>)
    requires sep in s && parts == Split(s, sep)
    ensures |parts| >= 2 && s == Join(parts[..|parts| - 1], sep) + [sep] + parts[|parts| - 1]
  {
    JoinSplit(s, sep);
    SeveralFields(s, sep, parts);
    JoinLast(parts, sep);
  }

  /** The join of two or more fields ends with the separator and the last field. */
  lemma JoinLast(parts: seq<seq<byte>>, sep: byte)
    requires |parts| >= 2
    ensures Join(parts, sep) == Join(parts[..|parts| - 1], sep) + [sep] + parts[|parts| - 1]
  {
    var k := |parts|;
    assert parts == parts[..k - 1] + [parts[k - 1]];
    JoinAppend(parts[..k - 1], parts[k - 1], sep);
  }

  /** A string with a separator splits into at least two fields. */
  lemma SeveralFields(s: seq<byte>, sep: byte, parts: seq<seq<byte>>)
    requires sep in s && parts == Split(s, sep) && Join(parts, sep) == s
    ensures |parts| >= 2
  {
  }

  /** Everything before the last separator, as `sep.join(s.split(sep)[:-1])` builds it:
      empty when there is no separator, and otherwise the part of `s` that the last
      separator and the last field close. */
  function BeforeLast(s: seq<byte>, sep: byte): (r: seq<byte>)
    ensures sep !in s ==> r == []
    ensures sep in s ==> s == r + [sep] + AfterLast(s, sep)
  {
    var parts := Split(s, sep);
    LastField(s, sep);
    Join(parts[..|parts| - 1], sep)
  }

  /** What follows the last separator, as `s.split(sep)[-1]` picks it: never holds the
      separator, and is all of `s` when `s` has none. */
  function AfterLast(s: seq<byte>, sep: byte): (r: seq<byte>)
    ensures sep !in r
    ensures sep !in s ==> r == s
  {
    var parts := Split(s, sep);
    LastField(s, sep);
    parts[|parts| - 1]
  }

  /** Adding a separator and a separator-free tail, then taking everything before the last
      separator, gives the original back, whatever separators it holds itself. */
  lemma BeforeLastAppend(s: seq<byte>, sep: byte, t: seq<byte>)
    requires sep !in t
    ensures BeforeLast(s + [sep] + t, sep) == s
    ensures AfterLast(s + [sep] + t, sep) == t
  {
    SplitAppend(s, sep, t);
    var parts := Split(s, sep) + [t];
    assert parts[..|parts| - 1] == Split(s, sep);
    JoinSplit(s, sep);
  }
}
