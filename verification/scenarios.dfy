/** Boundary cases and small graphs for `color_regions`. */
module Scenarios {
  import opened Wrappers
  import opened Adjacency
  import opened Coloring

  /** No regions: the touch rows form a one-dimensional array and clearing its
      diagonal raises, whatever the palette. */
  lemma EmptyGraph(k: nat)
    ensures ColorRegions<string>([], [], k) == Failure(NotTwoDimensional)
  {
  }

  /** Regions that touch nobody else need a single color. */
  lemma EdgelessOneColor<N>(nodes: seq<N>, m: Matrix)
    requires Distinct(nodes)
    requires IsSquare(m, |nodes|)
    requires forall i, j :: 0 <= i < |nodes| && 0 <= j < |nodes| && i != j ==> !m[i][j]
    ensures |nodes| > 0 ==> ColorRegions(nodes, m, 1).Success? && ColorRegions(nodes, m, 1).value.Some?
  {
    var a := map x | x in nodes :: 0;
    ColorRegionsComplete(nodes, m, 1, a);
  }

  function Triangle(): seq<string> { ["A", "B", "C"] }

  /** Three mutually touching regions; every geometry also touches itself here. */
  function TriangleTouches(): Matrix {
    [[true, true, true], [true, true, true], [true, true, true]]
  }

  /** No map into two colors is a proper coloring of three mutually touching regions. */
  lemma TriangleHasNoTwoColoring(a: map<string, int>)
    requires a.Keys == {"A", "B", "C"}
    requires forall x :: x in a ==> 0 <= a[x] < 2
    ensures !ProperColoring(Triangle(), TriangleTouches(), 2, a)
  {
    var ns, m := Triangle(), TriangleTouches();
    assert ns[0] == "A" && ns[1] == "B" && ns[2] == "C";
    assert m[0][1] && m[0][2] && m[1][2];
    assert a["A"] == a["B"] || a["A"] == a["C"] || a["B"] == a["C"];
  }

  /** A triangle cannot be colored with two colors but can with three. */
  lemma TriangleNeedsThreeColors()
    ensures ColorRegions(Triangle(), TriangleTouches(), 2) == Success(None)
    ensures ColorRegions(Triangle(), TriangleTouches(), 3).Success? && ColorRegions(Triangle(), TriangleTouches(), 3).value.Some?
  {
    var ns, m := Triangle(), TriangleTouches();
    assert ns[0] in ns && ns[1] in ns && ns[2] in ns;
    assert (set x | x in ns) == {"A", "B", "C"};
    if ColorRegions(ns, m, 2).value.Some? {
      TriangleHasNoTwoColoring(ColorRegions(ns, m, 2).value.value);
    }
    var three := map["A" := 0, "B" := 1, "C" := 2];
    ColorRegionsComplete(ns, m, 3, three);
  }

  function Ring(): seq<string> { ["A", "B", "C", "D"] }

  /** The 4-cycle A-B-C-D-A. */
  function RingTouches(): Matrix {
    [[false, true, false, true],
     [true, false, true, false],
     [false, true, false, true],
     [true, false, true, false]]
  }

  /** In any 2-coloring of the 4-cycle opposite corners share a color. */
  lemma RingColoringAlternates(a: map<string, int>)
    requires ProperColoring(Ring(), RingTouches(), 2, a)
    ensures a["A"] == a["C"] && a["B"] == a["D"] && a["A"] != a["B"]
  {
    var ns, m := Ring(), RingTouches();
    assert ns[0] in ns && ns[1] in ns && ns[2] in ns && ns[3] in ns;
    assert a[ns[0]] != a[ns[1]] by { assert m[0][1]; }
    assert a[ns[1]] != a[ns[2]] by { assert m[1][2]; }
    assert a[ns[2]] != a[ns[3]] by { assert m[2][3]; }
  }

  /** A 4-cycle is 2-colorable, and the coloring found alternates around the ring. */
  lemma RingTwoColors()
    ensures ColorRegions(Ring(), RingTouches(), 2).Success? && ColorRegions(Ring(), RingTouches(), 2).value.Some?
    ensures var a := ColorRegions(Ring(), RingTouches(), 2).value.value;
      a["A"] == a["C"] && a["B"] == a["D"] && a["A"] != a["B"]
  {
    var ns, m := Ring(), RingTouches();
    var two := map["A" := 0, "B" := 1, "C" := 0, "D" := 1];
    assert ns[0] in ns && ns[1] in ns && ns[2] in ns && ns[3] in ns;
    assert two.Keys == set x | x in ns;
    ColorRegionsComplete(ns, m, 2, two);
    RingColoringAlternates(ColorRegions(ns, m, 2).value.value);
  }
}
