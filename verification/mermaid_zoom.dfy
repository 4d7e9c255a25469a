/**
 * The documentation site's diagram zoom: a modal overlay that shows an
 * enlarged clone of a diagram's SVG, opened by clicking the diagram and closed
 * by clicking the background or the close button, or by Escape.
 *
 * The enhancement pass that makes diagrams clickable runs once after a delay
 * in the page; here it is the method `EnhancementPass`, given the `.mermaid`
 * elements in document order.
 */
module MermaidZoom {
  import opened Optional

  /** An SVG element: its attributes other than `style`, its inline style properties, and its markup inside. */
  datatype Svg = Svg(attributes: map<string, string>, style: map<string, string>, inner: string)

  /** A `.mermaid` element: its identity, and the `svg` inside it if the diagram is rendered yet. */
  datatype Diagram = Diagram(id: nat, svg: Option<Svg>)

  /**
   * What the enhancement pass leaves on the page: the ids carrying
   * `data-zoomable`, and the diagrams with a click handler, each mapped to the
   * svg that handler clones.
   */
  datatype Marks = Marks(marked: set<nat>, handlers: map<nat, Svg>)

  /** `modal.style.display`. */
  datatype Display = DisplayNone | DisplayBlock

  /** `document.body.style.overflow`: the page's own value until the overlay first sets it. */
  datatype Overflow = OverflowUnset | OverflowAuto | OverflowHidden

  /** Where a click inside the overlay lands. */
  datatype ModalTarget = Background | CloseButton | Inside

  /** The clone the overlay shows: no fixed size, full width, aspect ratio kept. */
  function ZoomedClone(svg: Svg): (c: Svg)
    ensures "width" !in c.attributes && "height" !in c.attributes
    ensures "preserveAspectRatio" in c.attributes && c.attributes["preserveAspectRatio"] == "xMidYMid meet"
    ensures forall a :: a in c.attributes && a != "preserveAspectRatio" ==> a in svg.attributes && c.attributes[a] == svg.attributes[a]
    ensures forall a :: a in svg.attributes && a !in {"width", "height", "preserveAspectRatio"} ==> a in c.attributes
    ensures "width" in c.style && c.style["width"] == "100%"
    ensures "height" in c.style && c.style["height"] == "auto"
    ensures "maxWidth" in c.style && c.style["maxWidth"] == "none"
    ensures forall p :: p in svg.style && p !in {"width", "height", "maxWidth"} ==> p in c.style && c.style[p] == svg.style[p]
    ensures c.style.Keys == svg.style.Keys + {"width", "height", "maxWidth"}
    ensures c.inner == svg.inner
  {
    Svg((svg.attributes - {"width", "height"})["preserveAspectRatio" := "xMidYMid meet"],
        svg.style["width" := "100%"]["height" := "auto"]["maxWidth" := "none"],
        svg.inner)
  }

  /**
   * One diagram of the pass: skipped when already marked; otherwise marked,
   * and given a handler only when its svg is there.
   */
  function Enhance(m: Marks, d: Diagram): Marks
  {
    if d.id in m.marked then m
    else if d.svg.None? then Marks(m.marked + {d.id}, m.handlers)
    else Marks(m.marked + {d.id}, m.handlers[d.id := d.svg.value])
  }

  /** The pass over the diagrams in document order. */
  function Pass(m: Marks, ds: seq<Diagram>): Marks
  {
    if |ds| == 0 then m else Enhance(Pass(m, ds[..|ds| - 1]), ds[|ds| - 1])
  }

  /** Every diagram with a handler carries the marker. */
  predicate Consistent(m: Marks)
  {
    m.handlers.Keys <= m.marked
  }

  function Ids(ds: seq<Diagram>): set<nat>
  {
    set i | 0 <= i < |ds| :: ds[i].id
  }

  /** The pass marks every diagram it meets, and only those. */
  lemma {:induction false} PassMarks(m: Marks, ds: seq<Diagram>)
    ensures Pass(m, ds).marked == m.marked + Ids(ds)
    decreases |ds|
  {
    if |ds| > 0 {
      var front := ds[..|ds| - 1];
      PassMarks(m, front);
      assert Ids(ds) == Ids(front) + {ds[|ds| - 1].id} by {
        forall x | x in Ids(ds) ensures x in Ids(front) + {ds[|ds| - 1].id} {
          var i :| 0 <= i < |ds| && ds[i].id == x;
          if i < |ds| - 1 {
            assert front[i] == ds[i];
          }
        }
        forall x | x in Ids(front) ensures x in Ids(ds) {
          var i :| 0 <= i < |front| && front[i].id == x;
          assert ds[i] == front[i];
        }
      }
    }
  }

  /** The pass keeps handlers on marked diagrams only. */
  lemma {:induction false} PassConsistent(m: Marks, ds: seq<Diagram>)
    requires Consistent(m)
    ensures Consistent(Pass(m, ds))
    decreases |ds|
  {
    if |ds| > 0 {
      PassConsistent(m, ds[..|ds| - 1]);
    }
  }

  /**
   * A diagram that is already marked keeps whether it has a handler, and which,
   * whatever later passes find: the marker is set before the svg check, so a
   * diagram marked while it had no svg never becomes clickable.
   */
  lemma {:induction false} MarkedStaysAsIs(m: Marks, ds: seq<Diagram>, id: nat)
    requires id in m.marked
    ensures id in Pass(m, ds).handlers <==> id in m.handlers
    ensures id in m.handlers ==> Pass(m, ds).handlers[id] == m.handlers[id]
    decreases |ds|
  {
    if |ds| > 0 {
      MarkedStaysAsIs(m, ds[..|ds| - 1], id);
      PassMarks(m, ds[..|ds| - 1]);
    }
  }

  /** A pass that finds every diagram marked changes nothing. */
  lemma {:induction false} PassOverMarked(m: Marks, ds: seq<Diagram>)
    requires Ids(ds) <= m.marked
    ensures Pass(m, ds) == m
    decreases |ds|
  {
    if |ds| > 0 {
      var front := ds[..|ds| - 1];
      assert Ids(front) <= Ids(ds) by {
        forall x | x in Ids(front) ensures x in Ids(ds) {
          var i :| 0 <= i < |front| && front[i].id == x;
          assert ds[i] == front[i];
        }
      }
      PassOverMarked(m, front);
      assert ds[|ds| - 1].id in Ids(ds);
    }
  }

  /** Running the pass again over the same diagrams wires nothing more. */
  lemma PassIdempotent(m: Marks, ds: seq<Diagram>)
    ensures Pass(Pass(m, ds), ds) == Pass(m, ds)
  {
    PassMarks(m, ds);
    PassOverMarked(Pass(m, ds), ds);
  }

  /** No two `.mermaid` elements are the same element. */
  predicate DistinctIds(ds: seq<Diagram>)
  {
    forall i, j :: 0 <= i < j < |ds| ==> ds[i].id != ds[j].id
  }

  /**
   * A diagram that was not marked before the pass ends up with a handler
   * exactly when its svg was there, and the handler clones that svg.
   */
  lemma {:induction false} PassWiresRendered(m: Marks, ds: seq<Diagram>, k: nat)
    requires DistinctIds(ds) && k < |ds| && ds[k].id !in m.marked && Consistent(m)
    ensures ds[k].id in Pass(m, ds).handlers <==> ds[k].svg.Some?
    ensures ds[k].svg.Some? ==> Pass(m, ds).handlers[ds[k].id] == ds[k].svg.value
    decreases |ds|
  {
    var front := ds[..|ds| - 1];
    PassConsistent(m, front);
    if k < |ds| - 1 {
      assert front[k] == ds[k];
      PassWiresRendered(m, front, k);
      assert ds[|ds| - 1].id != ds[k].id;
    } else {
      PassMarks(m, front);
      forall i | 0 <= i < |front| ensures front[i].id != ds[k].id {
        assert front[i] == ds[i];
      }
      assert ds[k].id !in Pass(m, front).handlers;
    }
  }

  /** The overlay, the page's scroll lock, and what the enhancement pass left on the diagrams. */
  class ZoomOverlay {
    var display: Display
    var overflow: Overflow
    /** The children of the diagram container inside the overlay. */
    var content: seq<Svg>
    var marked: set<nat>
    var handlers: map<nat, Svg>
    /** The clickable diagrams that hold a `.zoom-hint` child. */
    var hints: set<nat>

    ghost predicate Valid()
      reads this
    {
      && (display == DisplayBlock <==> overflow == OverflowHidden)
      && |content| <= 1
      && (display == DisplayBlock ==> |content| == 1)
      && Consistent(Marks(marked, handlers))
      && hints <= handlers.Keys
    }

    /** The overlay as built on `DOMContentLoaded`: hidden, empty, no diagram touched yet. */
    constructor ()
      ensures Valid()
      ensures display == DisplayNone && overflow == OverflowUnset && content == []
      ensures marked == {} && handlers == map[] && hints == {}
    {
      display := DisplayNone;
      overflow := OverflowUnset;
      content := [];
      marked := {};
      handlers := map[];
      hints := {};
    }

    /** The delayed pass over the `.mermaid` elements. */
    method EnhancementPass(ds: seq<Diagram>)
      requires Valid()
      modifies this
      ensures Valid()
      ensures Marks(marked, handlers) == Pass(old(Marks(marked, handlers)), ds)
      ensures display == old(display) && overflow == old(overflow) && content == old(content) && hints == old(hints)
    {
      ghost var start := Marks(marked, handlers);
      var i := 0;
      while i < |ds|
        invariant 0 <= i <= |ds|
        invariant Marks(marked, handlers) == Pass(start, ds[..i])
        invariant Consistent(Marks(marked, handlers))
        invariant hints <= handlers.Keys
        invariant display == old(display) && overflow == old(overflow) && content == old(content) && hints == old(hints)
      {
        assert ds[..i + 1][..i] == ds[..i];
        var d := ds[i];
        if d.id !in marked {
          marked := marked + {d.id};
          if d.svg.Some? {
            handlers := handlers[d.id := d.svg.value];
          }
        }
        i := i + 1;
      }
      assert ds[..|ds|] == ds;
    }

    /** The click handler of an enhanced diagram: show a fresh clone of its svg. */
    method DiagramClick(id: nat)
      requires Valid()
      modifies this
      ensures Valid()
      ensures id in handlers ==>
        display == DisplayBlock && overflow == OverflowHidden && content == [ZoomedClone(handlers[id])]
      ensures id !in handlers ==>
        display == old(display) && overflow == old(overflow) && content == old(content)
      ensures marked == old(marked) && handlers == old(handlers) && hints == old(hints)
    {
      if id in handlers {
        var clone := ZoomedClone(handlers[id]);
        content := [];
        content := content + [clone];
        display := DisplayBlock;
        overflow := OverflowHidden;
      }
    }

    /** Hide the overlay and release the page's scroll; the container keeps its clone. */
    method Hide()
      requires Valid()
      modifies this
      ensures Valid()
      ensures display == DisplayNone && overflow == OverflowAuto
      ensures content == old(content) && marked == old(marked) && handlers == old(handlers) && hints == old(hints)
    {
      display := DisplayNone;
      overflow := OverflowAuto;
    }

    /** `modal.onclick`: only the background and the close button close the overlay. */
    method ModalClick(target: ModalTarget)
      requires Valid()
      modifies this
      ensures Valid()
      ensures target != Inside ==> display == DisplayNone && overflow == OverflowAuto
      ensures target == Inside ==> display == old(display) && overflow == old(overflow)
      ensures content == old(content) && marked == old(marked) && handlers == old(handlers) && hints == old(hints)
    {
      if target == Background || target == CloseButton {
        Hide();
      }
    }

    /** The `keydown` listener: Escape closes the overlay while it is shown. */
    method KeyDown(key: string)
      requires Valid()
      modifies this
      ensures Valid()
      ensures key == "Escape" && old(display) == DisplayBlock ==> display == DisplayNone && overflow == OverflowAuto
      ensures !(key == "Escape" && old(display) == DisplayBlock) ==> display == old(display) && overflow == old(overflow)
      ensures content == old(content) && marked == old(marked) && handlers == old(handlers) && hints == old(hints)
    {
      if key == "Escape" && display == DisplayBlock {
        Hide();
      }
    }

    /** `mouseenter` on an enhanced diagram: add a hint unless one is there, so there is never more than one. */
    method MouseEnter(id: nat)
      requires Valid()
      modifies this
      ensures Valid()
      ensures id in handlers ==> hints == old(hints) + {id}
      ensures id !in handlers ==> hints == old(hints)
      ensures display == old(display) && overflow == old(overflow) && content == old(content)
      ensures marked == old(marked) && handlers == old(handlers)
    {
      if id in handlers && id !in hints {
        hints := hints + {id};
      }
    }

    /** `mouseleave` on an enhanced diagram: remove the hint if there is one. */
    method MouseLeave(id: nat)
      requires Valid()
      modifies this
      ensures Valid()
      ensures hints == old(hints) - {id}
      ensures display == old(display) && overflow == old(overflow) && content == old(content)
      ensures marked == old(marked) && handlers == old(handlers)
    {
      if id in hints {
        hints := hints - {id};
      }
    }
  }

  /**
   * A page with one rendered diagram: after the pass, a click on it shows its
   * clone, and a click on the background hides the overlay again; a second
   * diagram's click replaces the clone rather than adding one.
   */
  method Scenario(a: Svg, b: Svg)
  {
    var overlay := new ZoomOverlay();
    var ds := [Diagram(1, Some(a)), Diagram(2, Some(b)), Diagram(3, None)];
    PassWiresRendered(Marks({}, map[]), ds, 0);
    PassWiresRendered(Marks({}, map[]), ds, 1);
    PassWiresRendered(Marks({}, map[]), ds, 2);
    PassMarks(Marks({}, map[]), ds);
    assert ds[2].id in Ids(ds);
    overlay.EnhancementPass(ds);
    assert 3 in overlay.marked && 3 !in overlay.handlers;
    overlay.DiagramClick(1);
    assert overlay.display == DisplayBlock && overlay.content == [ZoomedClone(a)];
    overlay.DiagramClick(2);
    assert overlay.content == [ZoomedClone(b)];
    overlay.KeyDown("Enter");
    assert overlay.display == DisplayBlock;
    overlay.ModalClick(Background);
    assert overlay.display == DisplayNone && overlay.overflow == OverflowAuto;
    overlay.KeyDown("Escape");
    assert overlay.display == DisplayNone;
  }
}
