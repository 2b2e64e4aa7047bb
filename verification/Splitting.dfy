/** Splitting a text at a separator and joining the parts again. */
module Splitting {
  import opened Basics

  /** The parts between separators: one more than there are separators, empty ones included. */
  function Split(s: Text, sep: byte): (parts: seq<Text>)
    ensures |parts| >= 1
  {
    if s == [] then
      [[]]
    else
      var rest := Split(s[1..], sep);
      if s[0] == sep then [[]] + rest else [[s[0]] + rest[0]] + rest[1..]
  }

  function Join(parts: seq<Text>, sep: byte): Text {
    if parts == [] then []
    else if |parts| == 1 then parts[0]
    else parts[0] + [sep] + Join(parts[1..], sep)
  }

  predicate Free(s: Text, sep: byte) {
    sep !in s
  }

  predicate AllFree(parts: seq<Text>, sep: byte) {
    forall i :: 0 <= i < |parts| ==> Free(parts[i], sep)
  }

  lemma JoinFirst(first: Text, rest: seq<Text>, sep: byte)
    ensures Join([first] + rest, sep) == if rest == [] then first else first + [sep] + Join(rest, sep)
  {
    assert ([first] + rest)[1..] == rest;
  }

  lemma AllFreeFirst(first: Text, rest: seq<Text>, sep: byte)
    ensures AllFree([first] + rest, sep) <==> Free(first, sep) && AllFree(rest, sep)
  {
    hide Free;
    var all := [first] + rest;
    assert all[0] == first && forall i :: 0 <= i < |rest| ==> rest[i] == all[i + 1];
  }

  lemma SplitFirst(s: Text, sep: byte)
    requires s != []
    ensures var rest := Split(s[1..], sep);
            Split(s, sep) == if s[0] == sep then [[]] + rest else [[s[0]] + rest[0]] + rest[1..]
  {
  }

  lemma {:induction false} SplitThenJoin(s: Text, sep: byte)
    ensures AllFree(Split(s, sep), sep)
    ensures Join(Split(s, sep), sep) == s
  {
    if s != [] {
      hide Split, Join, AllFree;
      var c, tail := s[0], s[1..];
      var rest := Split(tail, sep);
      SplitThenJoin(tail, sep);
      SplitFirst(s, sep);
      assert s == [c] + tail;
      if c == sep {
        JoinFirst([], rest, sep);
        AllFreeFirst([], rest, sep);
      } else {
        GrowFirst(c, rest[0], rest[1..], sep);
        assert rest == [rest[0]] + rest[1..];
      }
    }
  }

  /** A character in front of the first part is a character in front of the joined text. */
  lemma GrowFirst(c: byte, first: Text, rest: seq<Text>, sep: byte)
    requires c != sep
    ensures AllFree([[c] + first] + rest, sep) <==> AllFree([first] + rest, sep)
    ensures Join([[c] + first] + rest, sep) == [c] + Join([first] + rest, sep)
  {
    hide Join, AllFree;
    AllFreeFirst(first, rest, sep);
    AllFreeFirst([c] + first, rest, sep);
    JoinFirst(first, rest, sep);
    JoinFirst([c] + first, rest, sep);
    if rest != [] {
      assert ([c] + first) + [sep] + Join(rest, sep) == [c] + (first + [sep] + Join(rest, sep));
    }
  }

  /** A text without separator is one part. */
  lemma {:induction false} SplitFree(s: Text, sep: byte)
    requires Free(s, sep)
    ensures Split(s, sep) == [s]
  {
    if s != [] {
      SplitFree(s[1..], sep);
      assert [s[0]] + s[1..] == s;
    }
  }

  /** What comes before the first separator is the first part. */
  lemma {:induction false} SplitAtSeparator(head: Text, tail: Text, sep: byte)
    requires Free(head, sep)
    ensures Split(head + [sep] + tail, sep) == [head] + Split(tail, sep)
  {
    var s := head + [sep] + tail;
    if head == [] {
      assert s[1..] == tail;
    } else {
      SplitAtSeparator(head[1..], tail, sep);
      assert s[1..] == head[1..] + [sep] + tail;
      assert [s[0]] + head[1..] == head;
    }
  }

  lemma {:induction false} JoinThenSplit(parts: seq<Text>, sep: byte)
    requires parts != [] && AllFree(parts, sep)
    ensures Split(Join(parts, sep), sep) == parts
  {
    if |parts| == 1 {
      SplitFree(parts[0], sep);
    } else {
      JoinThenSplit(parts[1..], sep);
      SplitAtSeparator(parts[0], Join(parts[1..], sep), sep);
    }
  }

  lemma JoinOne(part: Text, sep: byte)
    ensures Join([part], sep) == part
  {
  }

  lemma {:induction false} JoinSnoc(parts: seq<Text>, last: Text, sep: byte)
    requires parts != []
    ensures Join(parts + [last], sep) == Join(parts, sep) + [sep] + last
  {
    var first, rest := parts[0], parts[1..];
    assert parts == [first] + rest && parts + [last] == [first] + (rest + [last]);
    JoinFirst(first, rest, sep);
    JoinFirst(first, rest + [last], sep);
    hide Join;
    if rest == [] {
      assert rest + [last] == [last];
      JoinOne(last, sep);
    } else {
      JoinSnoc(rest, last, sep);
    }
  }
}
