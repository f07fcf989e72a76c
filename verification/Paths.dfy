/** URL paths as the route matcher sees them: normalisation, segments, and the
    string tests that stand for relations between segment lists. */
module Paths {
  import Text

  type Segs = seq<string>

  function NonEmpty(parts: seq<string>): (r: Segs)
    ensures forall i :: 0 <= i < |r| ==> r[i] != "" && r[i] in parts
  {
    if parts == [] then []
    else (if parts[0] == "" then [] else [parts[0]]) + NonEmpty(parts[1..])
  }

  /** The non-empty pieces of a path between slashes. */
  function Segments(path: string): (r: Segs)
    ensures Proper(r)
  {
    NonEmpty(Text.Split(path, '/'))
  }

  predicate Proper(segs: Segs) {
    forall i :: 0 <= i < |segs| ==> segs[i] != "" && '/' !in segs[i]
  }

  function NormalizePath(path: string): string {
    Render(Segments(path))
  }

  function Render(segs: Segs): string {
    if segs == [] then "/" else "/" + Text.Join(segs, '/')
  }

  /** `s.rstrip("/")`. */
  function RStrip(s: string): string {
    if s != "" && s[|s| - 1] == '/' then RStrip(s[..|s| - 1]) else s
  }

  /** All slashes at the end are stripped, and nothing else. */
  lemma StrippedSlashes(s: string)
    ensures RStrip(s + "/") == RStrip(s)
    ensures s == "" || s[|s| - 1] != '/' ==> RStrip(s) == s
  {
    assert (s + "/")[..|s|] == s;
  }

  /** A slash before every segment; the empty path is one slash. */
  lemma RenderIs(segs: Segs)
    ensures Render([]) == "/"
    ensures segs != [] ==> Render(segs) == "/" + segs[0] + if |segs| == 1 then "" else Render(segs[1..])
  {
    if |segs| > 1 {
      var rest := Text.Join(segs[1..], '/');
      assert "/" + (segs[0] + "/" + rest) == "/" + segs[0] + ("/" + rest);
    }
  }

  // ---------------------------------------------------------------- normalisation

  lemma {:induction false} NonEmptyProper(segs: Segs)
    requires Proper(segs)
    ensures NonEmpty(segs) == segs
  {
    if segs != [] {
      assert segs == [segs[0]] + segs[1..];
      NonEmptyProper(segs[1..]);
    }
  }

  /** The segments of a path, piece by piece: a slash separates, and nothing between slashes is no segment. */
  lemma SegmentsByPiece(piece: string, rest: string)
    requires '/' !in piece
    ensures Segments(piece) == if piece == "" then [] else [piece]
    ensures Segments(piece + "/" + rest) == (if piece == "" then [] else [piece]) + Segments(rest)
  {
    Text.SplitAt(piece, rest, '/');
    assert ([piece] + Text.Split(rest, '/'))[1..] == Text.Split(rest, '/');
    var one := if piece == "" then [] else [piece];
    assert [piece][1..] == [] && NonEmpty([]) == [] && one + [] == one;
    assert NonEmpty([piece]) == one + NonEmpty([piece][1..]);
  }

  /** Rendering and splitting are inverse on proper segment lists. */
  lemma SegmentsRender(segs: Segs)
    requires Proper(segs)
    ensures Segments(Render(segs)) == segs
  {
    var path := Render(segs);
    assert Text.IndexOf(path, '/') == 0;
    if segs == [] {
      assert path[1..] == "";
      assert Text.Split(path, '/') == [""] + Text.Split("", '/') == ["", ""];
      assert NonEmpty(["", ""]) == NonEmpty(["", ""][1..]) == NonEmpty([""][1..]) == [];
    } else {
      assert path[1..] == Text.Join(segs, '/');
      Text.SplitJoin(segs, '/');
      assert Text.Split(path, '/') == [""] + segs;
      assert ([""] + segs)[1..] == segs;
      NonEmptyProper(segs);
    }
  }

  /** Normalising keeps the segments, is idempotent, and identifies exactly the paths with equal segments. */
  lemma NormalizeIsCanonical(p: string, q: string)
    ensures Segments(NormalizePath(p)) == Segments(p)
    ensures NormalizePath(NormalizePath(p)) == NormalizePath(p)
    ensures NormalizePath(p) == NormalizePath(q) <==> Segments(p) == Segments(q)
  {
    SegmentsRender(Segments(p));
    SegmentsRender(Segments(q));
  }

  // ---------------------------------------------------------------- string tests as segment tests

  /** Every segment with its slash in front. */
  function Slashed(segs: Segs): (r: string)
    ensures r == "" || r[0] == '/'
  {
    if segs == [] then "" else "/" + segs[0] + Slashed(segs[1..])
  }

  lemma {:induction false} RenderSlashed(segs: Segs)
    requires segs != []
    ensures Render(segs) == Slashed(segs)
  {
    if |segs| > 1 {
      RenderSlashed(segs[1..]);
      assert Text.Join(segs, '/') == segs[0] + ['/'] + Text.Join(segs[1..], '/');
    }
  }

  lemma {:induction false} SlashedLast(segs: Segs)
    requires Proper(segs) && segs != []
    ensures var s := Slashed(segs); s[|s| - 1] != '/'
  {
    if |segs| > 1 {
      SlashedLast(segs[1..]);
    } else {
      assert segs[0][|segs[0]| - 1] in segs[0];
    }
  }

  lemma RStripRender(segs: Segs)
    requires Proper(segs)
    ensures RStrip(Render(segs)) == Slashed(segs) == RStrip(Slashed(segs))
  {
    if segs == [] {
      assert "/"[..0] == "";
    } else {
      RenderSlashed(segs);
      SlashedLast(segs);
    }
  }

  /** Two slash-free fronts, each followed by a slash or the end, agree if one text is a prefix of the other. */
  lemma FrontsAgree(b: string, x: string, q: string, y: string)
    requires '/' !in b && '/' !in q && x != "" && x[0] == '/' && (y == "" || y[0] == '/')
    ensures b + x <= q + y <==> b == q && x <= y
  {
    if b + x <= q + y {
      assert (b + x)[|b|] == '/' == (q + y)[|b|];
      assert b == (b + x)[..|b|] == (q + y)[..|q|] == q;
      assert x == (b + x)[|b|..] && y == (q + y)[|q|..];
    }
  }

  /** A text prefix that ends at a slash is a proper whole-segment prefix. */
  lemma {:induction false} PrefixAtSlashIff(b: Segs, q: Segs)
    requires Proper(b) && Proper(q)
    ensures Slashed(b) + "/" <= Slashed(q) <==> b < q
    decreases |b|
  {
    if b == [] {
    } else if q == [] {
    } else {
      var x, y := Slashed(b[1..]) + "/", Slashed(q[1..]);
      assert Slashed(b) + "/" == "/" + (b[0] + x);
      assert Slashed(q) == "/" + (q[0] + y);
      assert Slashed(b) + "/" <= Slashed(q) <==> b[0] + x <= q[0] + y by { SameHead(b[0] + x, q[0] + y); }
      FrontsAgree(b[0], x, q[0], y);
      PrefixAtSlashIff(b[1..], q[1..]);
      assert b < q <==> b[0] == q[0] && b[1..] < q[1..];
    }
  }

  lemma SameHead(u: string, v: string)
    ensures "/" + u <= "/" + v <==> u <= v
  {
    assert ("/" + u)[1..] == u && ("/" + v)[1..] == v;
    if "/" + u <= "/" + v { assert u == ("/" + v)[..|u| + 1][1..] == v[..|u|]; }
    if u <= v { assert "/" + u == "/" + v[..|u|] == ("/" + v)[..|u| + 1]; }
  }

  lemma {:induction false} SlashedInjective(b: Segs, q: Segs)
    requires Proper(b) && Proper(q)
    ensures Slashed(b) == Slashed(q) <==> b == q
  {
    if Slashed(b) == Slashed(q) {
      if b != [] && q != [] {
        RenderSlashed(b);
        RenderSlashed(q);
        SegmentsRender(b);
        SegmentsRender(q);
      }
    }
  }

  /** The matcher's test of a normalised path against a normalised base. */
  lemma UnderBaseIff(b: Segs, q: Segs)
    requires Proper(b) && Proper(q)
    ensures Render(q) == Render(b) || RStrip(Render(b)) + "/" <= Render(q) <==> b <= q
  {
    RStripRender(b);
    SegmentsRender(b);
    SegmentsRender(q);
    assert Render(q) == Render(b) <==> b == q;
    if q == [] {
      assert b != [] ==> |Slashed(b)| > 1;
    } else {
      RenderSlashed(q);
      PrefixAtSlashIff(b, q);
    }
  }
}
