/** Path segments: how the router turns a route template or a request
    pathname into the sequence of segments it compares.

    The router computes `path.split("/").filter(Boolean)`: JavaScript's
    `split` yields every piece between separators, including empty ones
    (so `"".split("/")` is `[""]` and `"/a/".split("/")` is `["", "a", ""]`),
    and `filter(Boolean)` then drops the empty strings. */
module Paths {

  const Slash: char := '/'

  /** A parameter segment is one that starts with `:`. */
  predicate IsParam(segment: string): (param: bool)
    ensures param <==> [':'] <= segment
  {
    |segment| > 0 && segment[0] == ':'
  }

  /** The name a parameter segment binds: the segment without its leading `:`. */
  function ParamName(segment: string): (name: string)
    requires IsParam(segment)
    ensures [':'] + name == segment
  {
    segment[1..]
  }

  /** `s.split("/")`: the pieces between separators, empty pieces included. */
  function Split(s: string): (pieces: seq<string>)
    ensures |pieces| >= 1
  {
    if |s| == 0 then [""]
    else
      var rest := Split(s[1..]);
      if s[0] == Slash then [""] + rest
      else [[s[0]] + rest[0]] + rest[1..]
  }

  /** `pieces.join("/")`, the inverse of `Split`. */
  function Join(pieces: seq<string>): string
    requires |pieces| >= 1
  {
    if |pieces| == 1 then pieces[0]
    else pieces[0] + [Slash] + Join(pieces[1..])
  }

  /** `pieces.filter(Boolean)`: keeps the non-empty strings, in order. */
  function NonEmpty(pieces: seq<string>): (kept: seq<string>)
    ensures |kept| <= |pieces|
    ensures forall i :: 0 <= i < |kept| ==> kept[i] != "" && kept[i] in pieces
    ensures forall p :: p != "" ==> multiset(kept)[p] == multiset(pieces)[p]
  {
    if |pieces| == 0 then []
    else
      assert pieces == [pieces[0]] + pieces[1..];
      if pieces[0] == "" then NonEmpty(pieces[1..])
      else [pieces[0]] + NonEmpty(pieces[1..])
  }

  /** The segments of a route template or a request pathname. */
  function Segments(path: string): (segments: seq<string>)
    ensures forall i :: 0 <= i < |segments| ==> segments[i] != "" && Slash !in segments[i]
  {
    SplitHasNoSlash(path);
    NonEmpty(Split(path))
  }

  /** No piece of a split contains the separator. */
  lemma {:induction false} SplitHasNoSlash(s: string)
    ensures forall i :: 0 <= i < |Split(s)| ==> Slash !in Split(s)[i]
  {
    if |s| > 0 {
      SplitHasNoSlash(s[1..]);
    }
  }

  /** Splitting loses nothing: joining the pieces gives back the string. */
  lemma {:induction false} JoinSplit(s: string)
    ensures Join(Split(s)) == s
  {
    if |s| > 0 {
      var rest := Split(s[1..]);
      JoinSplit(s[1..]);
      if s[0] == Slash {
        assert Split(s) == [""] + rest;
        assert Split(s)[1..] == rest;
      } else {
        var p := Split(s);
        assert p[0] == [s[0]] + rest[0];
        if |rest| == 1 {
          assert s == [s[0]] + s[1..];
        } else {
          assert p[1..] == rest[1..];
          assert Join(rest) == rest[0] + [Slash] + Join(rest[1..]);
          assert s == [s[0]] + s[1..];
        }
      }
    }
  }

  /** One step of the split: the first character either ends the first piece
      (a separator) or joins it. */
  lemma SplitCons(c: char, t: string)
    ensures Split([c] + t) ==
      if c == Slash then [""] + Split(t) else [[c] + Split(t)[0]] + Split(t)[1..]
  {
  }

  /** Prepending a character to the first piece commutes with appending pieces. */
  lemma PrependToFirst(c: char, x: seq<string>, y: seq<string>)
    requires |x| >= 1
    ensures [[c] + (x + y)[0]] + (x + y)[1..] == [[c] + x[0]] + x[1..] + y
  {
  }

  /** Splitting the string does not depend on how it is cut at a separator:
      `(a + "/" + b).split("/")` is `a.split("/")` followed by `b.split("/")`. */
  lemma {:induction false} SplitAtSlash(a: string, b: string)
    ensures Split(a + [Slash] + b) == Split(a) + Split(b)
  {
    if |a| == 0 {
      assert a + [Slash] + b == [Slash] + b;
      SplitCons(Slash, b);
    } else {
      var c, t := a[0], a[1..];
      var tail := t + [Slash] + b;
      assert a == [c] + t;
      assert a + [Slash] + b == [c] + tail;
      SplitAtSlash(t, b);
      SplitCons(c, t);
      SplitCons(c, tail);
      if c == Slash {
        calc {
          Split([c] + tail);
          [""] + Split(tail);
          [""] + (Split(t) + Split(b));
          ([""] + Split(t)) + Split(b);
          Split([c] + t) + Split(b);
        }
      } else {
        calc {
          Split([c] + tail);
          [[c] + Split(tail)[0]] + Split(tail)[1..];
          [[c] + (Split(t) + Split(b))[0]] + (Split(t) + Split(b))[1..];
          { PrependToFirst(c, Split(t), Split(b)); }
          [[c] + Split(t)[0]] + Split(t)[1..] + Split(b);
          Split([c] + t) + Split(b);
        }
      }
    }
  }

  lemma {:induction false} NonEmptyConcat(p: seq<string>, q: seq<string>)
    ensures NonEmpty(p + q) == NonEmpty(p) + NonEmpty(q)
  {
    if |p| > 0 {
      assert (p + q)[0] == p[0];
      assert (p + q)[1..] == p[1..] + q;
      NonEmptyConcat(p[1..], q);
    } else {
      assert p + q == q;
    }
  }

  /** A separator splits the segments of its two sides:
      the segments of `a + "/" + b` are those of `a` followed by those of `b`. */
  lemma SegmentsAtSlash(a: string, b: string)
    ensures Segments(a + [Slash] + b) == Segments(a) + Segments(b)
  {
    SplitAtSlash(a, b);
    NonEmptyConcat(Split(a), Split(b));
  }

  /** Leading, trailing and doubled slashes do not change the segments. */
  lemma SlashesInsignificant(a: string, b: string)
    ensures Segments(a + [Slash]) == Segments(a)
    ensures Segments([Slash] + a) == Segments(a)
    ensures Segments(a + [Slash, Slash] + b) == Segments(a + [Slash] + b)
  {
    SegmentsAtSlash(a, "");
    assert a + [Slash] + "" == a + [Slash];
    SegmentsAtSlash("", a);
    assert "" + [Slash] + a == [Slash] + a;
    SegmentsAtSlash(a, [Slash] + b);
    assert a + [Slash] + ([Slash] + b) == a + [Slash, Slash] + b;
    SegmentsAtSlash("", b);
    assert "" + [Slash] + b == [Slash] + b;
    SegmentsAtSlash(a, b);
  }

  /** A non-empty piece without separators is a single segment. */
  lemma SegmentsOfWord(w: string)
    requires w != "" && Slash !in w
    ensures Segments(w) == [w]
  {
    SplitWord(w);
  }

  lemma {:induction false} SplitWord(w: string)
    requires Slash !in w
    ensures Split(w) == [w]
  {
    if |w| > 0 {
      assert Slash !in w[1..] by {
        assert forall i :: 0 <= i < |w[1..]| ==> w[1..][i] == w[i + 1];
      }
      SplitWord(w[1..]);
      assert [w[0]] + w[1..] == w;
    }
  }
}
