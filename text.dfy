/**
 * The two string operations of Rust's standard library that the core relies
 * on: `str::split` on a single character and `str::replace(pat, "")`, which
 * deletes every non-overlapping occurrence of `pat`, scanning left to right.
 */
module Text {

  /** Number of occurrences of `c` in `s`. */
  function CountChar(s: string, c: char): nat
  {
    if s == [] then 0 else (if s[0] == c then 1 else 0) + CountChar(s[1..], c)
  }

  /**
   * `s.split(sep).collect()`: the pieces between consecutive separators.
   * There is always one more piece than there are separators, so the empty
   * string splits into one empty piece and leading, trailing or doubled
   * separators give empty pieces.
   */
  function Split(s: string, sep: char): (pieces: seq<string>)
    ensures |pieces| == CountChar(s, sep) + 1
    ensures forall i :: 0 <= i < |pieces| ==> sep !in pieces[i]
  {
    if s == [] then [[]]
    else
      var rest := Split(s[1..], sep);
      if s[0] == sep then [[]] + rest
      else [[s[0]] + rest[0]] + rest[1..]
  }

  /** The pieces glued back together with `sep` between neighbours. */
  function Join(pieces: seq<string>, sep: char): string
  {
    if pieces == [] then []
    else if |pieces| == 1 then pieces[0]
    else pieces[0] + [sep] + Join(pieces[1..], sep)
  }

  /** Joining the pieces of a split gives back the string. */
  lemma {:induction false} JoinSplit(s: string, sep: char)
    ensures Join(Split(s, sep), sep) == s
  {
    if s != [] {
      var rest := Split(s[1..], sep);
      JoinSplit(s[1..], sep);
      if s[0] != sep && |rest| > 1 {
        assert Join(rest, sep) == rest[0] + [sep] + Join(rest[1..], sep);
        assert s == [s[0]] + s[1..];
      }
    }
  }

  /** Prepending separator-free text extends the first piece only. */
  lemma {:induction false} SplitAfterPlainText(a: string, t: string, sep: char)
    requires sep !in a
    ensures Split(a + t, sep) == [a + Split(t, sep)[0]] + Split(t, sep)[1..]
  {
    if a == [] {
      var rest := Split(t, sep);
      assert a + t == t && a + rest[0] == rest[0];
      assert rest == [rest[0]] + rest[1..];
    } else {
      var rest := Split(t, sep);
      SplitAfterPlainText(a[1..], t, sep);
      assert (a + t)[0] == a[0] != sep;
      assert (a + t)[1..] == a[1..] + t;
      var inner := Split(a[1..] + t, sep);
      assert inner == [a[1..] + rest[0]] + rest[1..];
      assert Split(a + t, sep) == [[a[0]] + inner[0]] + inner[1..];
      assert [a[0]] + (a[1..] + rest[0]) == a + rest[0];
    }
  }

  /** Splitting separator-free pieces joined by the separator gives them back. */
  lemma {:induction false} SplitJoin(pieces: seq<string>, sep: char)
    requires |pieces| >= 1
    requires forall i :: 0 <= i < |pieces| ==> sep !in pieces[i]
    ensures Split(Join(pieces, sep), sep) == pieces
  {
    if |pieces| == 1 {
      SplitAfterPlainText(pieces[0], [], sep);
      assert pieces[0] + [] == pieces[0];
    } else {
      var tail := Join(pieces[1..], sep);
      SplitJoin(pieces[1..], sep);
      SplitAfterPlainText(pieces[0], [sep] + tail, sep);
      assert Join(pieces, sep) == pieces[0] + ([sep] + tail);
      assert ([sep] + tail)[0] == sep && ([sep] + tail)[1..] == tail;
      var after := Split([sep] + tail, sep);
      assert after == [[]] + pieces[1..];
      assert pieces[0] + after[0] == pieces[0];
      assert pieces == [pieces[0]] + pieces[1..];
    }
  }

  /** `pat` occurs somewhere in `s` (the empty pattern occurs everywhere). */
  predicate Occurs(pat: string, s: string)
  {
    pat <= s || (s != [] && Occurs(pat, s[1..]))
  }

  /**
   * `s.replace(pat, "")`: every non-overlapping occurrence of `pat`, found
   * left to right, is deleted. An empty pattern leaves `s` as it is.
   */
  function RemoveAll(s: string, pat: string): (r: string)
    ensures |r| <= |s|
  {
    if pat == [] || s == [] then s
    else if pat <= s then RemoveAll(s[|pat|..], pat)
    else [s[0]] + RemoveAll(s[1..], pat)
  }

  /** Text in which the pattern does not occur is left as it is. */
  lemma {:induction false} RemoveAllAbsent(s: string, pat: string)
    requires !Occurs(pat, s)
    ensures RemoveAll(s, pat) == s
  {
    if pat != [] && s != [] {
      RemoveAllAbsent(s[1..], pat);
      assert s == [s[0]] + s[1..];
    }
  }

  /** A leading occurrence of the pattern is deleted and the scan goes on after it. */
  lemma RemoveAllLeading(pat: string, s: string)
    requires pat != []
    ensures RemoveAll(pat + s, pat) == RemoveAll(s, pat)
  {
    assert pat <= pat + s;
    assert (pat + s)[|pat|..] == s;
  }

  /** A one-character pattern occurs exactly when the character does. */
  lemma {:induction false} OccursChar(c: char, s: string)
    ensures Occurs([c], s) <==> c in s
  {
    if s != [] {
      OccursChar(c, s[1..]);
      assert [c] <= s <==> s[0] == c;
      assert c in s <==> s[0] == c || c in s[1..];
    }
  }

  /** Wherever a non-empty pattern occurs, its last character occurs too. */
  lemma {:induction false} OccursHasLastChar(pat: string, s: string)
    requires pat != []
    ensures Occurs(pat, s) ==> pat[|pat| - 1] in s
  {
    if pat <= s {
      assert s[|pat| - 1] == pat[|pat| - 1];
    }
    if s != [] {
      OccursHasLastChar(pat, s[1..]);
      assert pat[|pat| - 1] in s[1..] ==> pat[|pat| - 1] in s;
    }
  }

  /** Deleting a single character, one character at a time. */
  lemma RemoveCharCons(x: char, t: string, c: char)
    ensures RemoveAll([x] + t, [c]) == if x == c then RemoveAll(t, [c]) else [x] + RemoveAll(t, [c])
  {
    var s := [x] + t;
    assert s[0] == x && s[1..] == t;
    assert [c] <= s <==> x == c;
    assert |[c]| == 1;
  }

  /** Deleting a single character distributes over concatenation. */
  lemma {:induction false} RemoveCharAppend(a: string, b: string, c: char)
    ensures RemoveAll(a + b, [c]) == RemoveAll(a, [c]) + RemoveAll(b, [c])
  {
    if a == [] {
      assert a + b == b;
    } else {
      var x, rest := a[0], a[1..];
      assert a == [x] + rest;
      assert a + b == [x] + (rest + b);
      var head := if x == c then [] else [x];
      calc {
        RemoveAll([x] + (rest + b), [c]);
        == { RemoveCharCons(x, rest + b, c); }
        head + RemoveAll(rest + b, [c]);
        == { RemoveCharAppend(rest, b, c); }
        head + (RemoveAll(rest, [c]) + RemoveAll(b, [c]));
        ==
        (head + RemoveAll(rest, [c])) + RemoveAll(b, [c]);
        == { RemoveCharCons(x, rest, c); }
        RemoveAll([x] + rest, [c]) + RemoveAll(b, [c]);
      }
    }
  }

  /** After deleting every `c`, none is left. */
  lemma {:induction false} RemoveCharGone(s: string, c: char)
    ensures c !in RemoveAll(s, [c])
  {
    if s != [] {
      RemoveCharGone(s[1..], c);
      assert [c] <= s <==> s[0] == c;
    }
  }

  /** Deleting every `c` twice is the same as deleting it once. */
  lemma RemoveCharIdempotent(s: string, c: char)
    ensures RemoveAll(RemoveAll(s, [c]), [c]) == RemoveAll(s, [c])
  {
    RemoveCharGone(s, c);
    OccursChar(c, RemoveAll(s, [c]));
    RemoveAllAbsent(RemoveAll(s, [c]), [c]);
  }

  /** A trailing `c` disappears. */
  lemma RemoveCharTrailing(front: string, c: char)
    ensures RemoveAll(front + [c], [c]) == RemoveAll(front, [c])
  {
    RemoveCharAppend(front, [c], c);
    RemoveCharCons(c, [], c);
    assert [c] + [] == [c];
  }

  /** An extra `c` inserted anywhere makes no difference once every `c` is deleted. */
  lemma RemoveCharInserted(front: string, back: string, c: char)
    ensures RemoveAll(front + [c] + back, [c]) == RemoveAll(front + back, [c])
  {
    RemoveCharAppend(front + [c], back, c);
    RemoveCharTrailing(front, c);
    RemoveCharAppend(front, back, c);
  }
}
