/** Rust's `str::split` on a single separator byte, collected into a vector:
    the pieces between separators, in order, always at least one. */
module Pieces {
  import opened Primitives

  /** Number of occurrences of `sep` in `s`. */
  function Count(s: Text, sep: byte): nat {
    if s == [] then 0 else (if s[0] == sep then 1 else 0) + Count(s[1..], sep)
  }

  lemma {:induction false} CountConcat(a: Text, b: Text, sep: byte)
    ensures Count(a + b, sep) == Count(a, sep) + Count(b, sep)
  {
    if a != [] {
      assert (a + b)[1..] == a[1..] + b;
      CountConcat(a[1..], b, sep);
    } else {
      assert a + b == b;
    }
  }

  /** The pieces glued back together with the separator between them. */
  function Join(parts: seq<Text>, sep: byte): Text {
    if parts == [] then []
    else if |parts| == 1 then parts[0]
    else parts[0] + [sep] + Join(parts[1..], sep)
  }

  /** `s.split(sep).collect()`: one more piece than there are separators,
      no piece contains the separator, and joining the pieces gives `s` back. */
  function Split(s: Text, sep: byte): (parts: seq<Text>)
    ensures |parts| == Count(s, sep) + 1
    ensures forall i | 0 <= i < |parts| :: sep !in parts[i]
    ensures Join(parts, sep) == s
  {
    if s == [] then [[]]
    else
      var rest := Split(s[1..], sep);
      if s[0] == sep then
        assert Join([[]] + rest, sep) == [sep] + Join(rest, sep);
        [[]] + rest
      else
        var parts := [[s[0]] + rest[0]] + rest[1..];
        assert Join(parts, sep) == [s[0]] + Join(rest, sep) by {
          if |rest| > 1 {
            assert parts[1..] == rest[1..];
          }
        }
        assert s == [s[0]] + s[1..];
        parts
  }

  /** A text without the separator is a single piece. */
  lemma {:induction false} SplitWithout(a: Text, sep: byte)
    requires sep !in a
    ensures Split(a, sep) == [a]
  {
    if a != [] {
      SplitWithout(a[1..], sep);
      assert [a[0]] + a[1..] == a;
    }
  }

  /** A separator after a separator-free prefix ends the first piece. */
  lemma {:induction false} SplitAfter(a: Text, sep: byte, b: Text)
    requires sep !in a
    ensures Split(a + [sep] + b, sep) == [a] + Split(b, sep)
  {
    if a == [] {
      assert [] + [sep] + b == [sep] + b;
      assert ([sep] + b)[1..] == b;
    } else {
      var s := a + [sep] + b;
      assert s[1..] == a[1..] + [sep] + b;
      SplitAfter(a[1..], sep, b);
      assert [a[0]] + a[1..] == a;
    }
  }

  /** Splitting undoes joining pieces that do not contain the separator. */
  lemma {:induction false} SplitJoin(parts: seq<Text>, sep: byte)
    requires parts != []
    requires forall i | 0 <= i < |parts| :: sep !in parts[i]
    ensures Split(Join(parts, sep), sep) == parts
  {
    if |parts| == 1 {
      SplitWithout(parts[0], sep);
    } else {
      SplitJoin(parts[1..], sep);
      SplitAfter(parts[0], sep, Join(parts[1..], sep));
    }
  }
}
