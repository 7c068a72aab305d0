/**
 * The string operations the router borrows from Rust's standard library:
 * `str::split` on one character, joining with a separator (the `reduce`
 * in `Path`'s `Display` and `Vec::join`), `trim_start_matches` and the
 * ASCII test that decides whether byte and character lengths agree.
 * Strings are sequences of characters.
 */
module Text {

  /** `s.split(sep)`: the pieces between separators, empty pieces included. */
  function Split(s: string, sep: char): (r: seq<string>)
    ensures |r| >= 1
    decreases |s|
  {
    if |s| == 0 then [[]]
    else if s[0] == sep then [[]] + Split(s[1..], sep)
    else
      var rest := Split(s[1..], sep);
      [[s[0]] + rest[0]] + rest[1..]
  }

  /** The pieces separated by `sep`; the empty list joins to "". */
  function Join(xs: seq<string>, sep: string): string
    decreases |xs|
  {
    if xs == [] then []
    else if |xs| == 1 then xs[0]
    else xs[0] + sep + Join(xs[1..], sep)
  }

  /** `s.trim_start_matches(c)`: drops every leading `c`. */
  function TrimStart(s: string, c: char): (r: string)
    ensures |r| <= |s| && r == s[|s| - |r|..]
    ensures r == [] || r[0] != c
    ensures forall i :: 0 <= i < |s| - |r| ==> s[i] == c
    decreases |s|
  {
    if s != [] && s[0] == c then TrimStart(s[1..], c) else s
  }

  predicate IsAscii(s: string) {
    forall i :: 0 <= i < |s| ==> s[i] < 128 as char
  }

  /** No piece of a split holds the separator. */
  lemma {:induction false} SplitPiecesLackSep(s: string, sep: char)
    ensures forall i :: 0 <= i < |Split(s, sep)| ==> sep !in Split(s, sep)[i]
    decreases |s|
  {
    if s != [] {
      SplitPiecesLackSep(s[1..], sep);
    }
  }

  /** Splitting at a separator splits the pieces list at the same place. */
  lemma {:induction false} SplitAppend(a: string, sep: char, b: string)
    ensures Split(a + [sep] + b, sep) == Split(a, sep) + Split(b, sep)
    decreases |a|
  {
    if a == [] {
      assert a + [sep] + b == [sep] + b;
      SplitCons(sep, b, sep);
    } else {
      SplitAppend(a[1..], sep, b);
      SplitAppendStep(a[0], a[1..], sep, b);
      assert a == [a[0]] + a[1..];
    }
  }

  /** The inductive step of `SplitAppend`: one more leading character. */
  lemma SplitAppendStep(c: char, a: string, sep: char, b: string)
    requires Split(a + [sep] + b, sep) == Split(a, sep) + Split(b, sep)
    ensures Split([c] + a + [sep] + b, sep) == Split([c] + a, sep) + Split(b, sep)
  {
    var t := a + [sep] + b;
    assert [c] + a + [sep] + b == [c] + t;
    SplitCons(c, t, sep);
    SplitCons(c, a, sep);
    if c == sep {
      SeqAssoc([[]], Split(a, sep), Split(b, sep));
    } else {
      var rest, rb := Split(a, sep), Split(b, sep);
      var whole := rest + rb;
      assert whole[0] == rest[0] && whole[1..] == rest[1..] + rb;
      SeqAssoc([[c] + rest[0]], rest[1..], rb);
    }
  }

  lemma SeqAssoc(x: seq<string>, y: seq<string>, z: seq<string>)
    ensures x + (y + z) == (x + y) + z
  {
  }

  /** One step of splitting: a leading separator ends an empty piece, any other character starts the first piece. */
  lemma SplitCons(c: char, t: string, sep: char)
    ensures c == sep ==> Split([c] + t, sep) == [[]] + Split(t, sep)
    ensures c != sep ==> Split([c] + t, sep) == [[c] + Split(t, sep)[0]] + Split(t, sep)[1..]
  {
    assert ([c] + t)[0] == c && ([c] + t)[1..] == t;
  }

  /** A string without the separator is a single piece. */
  lemma {:induction false} SplitNoSep(a: string, sep: char)
    requires sep !in a
    ensures Split(a, sep) == [a]
    decreases |a|
  {
    if a != [] {
      assert a[0] != sep;
      assert sep !in a[1..] by {
        forall i | 0 <= i < |a[1..]| ensures a[1..][i] != sep { assert a[1..][i] == a[i + 1]; }
      }
      SplitNoSep(a[1..], sep);
      assert [a[0]] + a[1..] == a;
    }
  }

  /** Splitting undoes joining when no piece holds the separator. */
  lemma {:induction false} SplitJoin(xs: seq<string>, sep: char)
    requires |xs| >= 1
    requires forall i :: 0 <= i < |xs| ==> sep !in xs[i]
    ensures Split(Join(xs, [sep]), sep) == xs
    decreases |xs|
  {
    if |xs| == 1 {
      SplitNoSep(xs[0], sep);
    } else {
      SplitJoin(xs[1..], sep);
      SplitAppend(xs[0], sep, Join(xs[1..], [sep]));
      SplitNoSep(xs[0], sep);
      assert xs[0] + [sep] + Join(xs[1..], [sep]) == Join(xs, [sep]);
      assert [xs[0]] + xs[1..] == xs;
    }
  }

  /** Joining the pieces of a split with the separator gives the string back. */
  lemma {:induction false} JoinSplit(s: string, sep: char)
    ensures Join(Split(s, sep), [sep]) == s
    decreases |s|
  {
    if s != [] {
      var rest := Split(s[1..], sep);
      JoinSplit(s[1..], sep);
      SplitCons(s[0], s[1..], sep);
      assert [s[0]] + s[1..] == s;
      if s[0] == sep {
        JoinCons([], rest, [sep]);
      } else {
        JoinExtendHead(s[0], rest, [sep]);
      }
    }
  }

  /** Joining a piece in front of a non-empty list puts it and one separator in front. */
  lemma JoinCons(x: string, ys: seq<string>, sep: string)
    requires |ys| >= 1
    ensures Join([x] + ys, sep) == x + sep + Join(ys, sep)
  {
    assert ([x] + ys)[1..] == ys;
  }

  /** Extending the first piece by one character extends the join by that character. */
  lemma JoinExtendHead(c: char, ys: seq<string>, sep: string)
    requires |ys| >= 1
    ensures Join([[c] + ys[0]] + ys[1..], sep) == [c] + Join(ys, sep)
  {
    if |ys| > 1 {
      JoinCons([c] + ys[0], ys[1..], sep);
      JoinCons(ys[0], ys[1..], sep);
      assert [ys[0]] + ys[1..] == ys;
    }
  }

  /**
   * Splitting a ", "-join on ',' gives back the pieces, each after the
   * first behind its one space, when no piece holds a ','.
   */
  lemma {:induction false} SplitCommaJoin(xs: seq<string>)
    requires |xs| >= 1
    requires forall i | 0 <= i < |xs| :: ',' !in xs[i]
    ensures |Split(Join(xs, ", "), ',')| == |xs|
    ensures forall i | 0 <= i < |xs| :: Split(Join(xs, ", "), ',')[i] == (if i == 0 then "" else " ") + xs[i]
    decreases |xs|
  {
    SplitNoSep(xs[0], ',');
    if |xs| > 1 {
      var rest := xs[1..];
      var j := Join(rest, ", ");
      assert Join(xs, ", ") == xs[0] + [','] + ([' '] + j) by {
        assert Join(xs, ", ") == xs[0] + ", " + j;
      }
      SplitCommaJoin(rest);
      var tail := Split([' '] + j, ',');
      SpaceLedSplit(j, rest);
      assert Split(Join(xs, ", "), ',') == [xs[0]] + tail by {
        SplitAppend(xs[0], ',', [' '] + j);
      }
    }
  }

  /** One space before a split's first piece: every piece comes out behind one space. */
  lemma SpaceLedSplit(j: string, rest: seq<string>)
    requires |rest| >= 1 && |Split(j, ',')| == |rest|
    requires forall i | 0 <= i < |rest| :: Split(j, ',')[i] == (if i == 0 then "" else " ") + rest[i]
    ensures |Split([' '] + j, ',')| == |rest|
    ensures forall i | 0 <= i < |rest| :: Split([' '] + j, ',')[i] == " " + rest[i]
  {
    SplitCons(' ', j, ',');
    var sj := Split(j, ',');
    var led := [[' '] + sj[0]] + sj[1..];
    assert sj[0] == [] + rest[0];
    forall i | 0 <= i < |rest| ensures led[i] == " " + rest[i] {
      if i > 0 {
        assert led[i] == sj[i];
      }
    }
  }

  /** `t` occurs in `s` starting at index `k`. */
  predicate OccursAt(t: string, s: string, k: int) {
    0 <= k <= |s| - |t| && s[k..k + |t|] == t
  }

  /** `t` occurs in `s` as a contiguous piece. */
  predicate Occurs(t: string, s: string) {
    exists k | 0 <= k <= |s| - |t| :: OccursAt(t, s, k)
  }

  /** Every piece occurs in the joined string. */
  lemma {:induction false} JoinHasPiece(xs: seq<string>, sep: string, i: nat)
    requires i < |xs|
    ensures Occurs(xs[i], Join(xs, sep))
    decreases |xs|
  {
    var j := Join(xs, sep);
    if |xs| == 1 {
      assert OccursAt(xs[0], j, 0);
    } else if i == 0 {
      assert j == xs[0] + (sep + Join(xs[1..], sep));
      assert OccursAt(xs[0], j, 0);
    } else {
      var rest := Join(xs[1..], sep);
      JoinHasPiece(xs[1..], sep, i - 1);
      assert xs[1..][i - 1] == xs[i];
      var k :| 0 <= k <= |rest| - |xs[i]| && OccursAt(xs[i], rest, k);
      assert rest[k..k + |xs[i]|] == xs[i];
      var pre := xs[0] + sep;
      assert j == pre + rest;
      assert j[|pre| + k..|pre| + k + |xs[i]|] == rest[k..k + |xs[i]|];
      assert OccursAt(xs[i], j, |pre| + k);
    }
  }

  lemma JoinHasEveryPiece(xs: seq<string>, sep: string)
    ensures forall i | 0 <= i < |xs| :: Occurs(xs[i], Join(xs, sep))
  {
    forall i | 0 <= i < |xs| ensures Occurs(xs[i], Join(xs, sep)) {
      JoinHasPiece(xs, sep, i);
    }
  }
}
