/** The views a parsed document derives from its top-level elements: the headings, the
    images and the title. */
module DocumentProperties {
  import opened Wrappers
  import opened Elements
  import Parser

  /** The heading one element contributes: itself if it is a heading, nothing otherwise. */
  lemma Singleton(e: Element)
    ensures Parser.Headings([e]) == (if e.HeadingElement? then [e.heading] else [])
    ensures Parser.Images([e]) == (if e.ImageElement? then [e.image] else [])
  {
    assert [e][..0] == [];
  }

  /** Collecting distributes over concatenation; with `Singleton` this fixes both views as
      the heading (image) elements in their original order. */
  lemma {:induction false} CollectAppend(a: seq<Element>, b: seq<Element>)
    ensures Parser.Headings(a + b) == Parser.Headings(a) + Parser.Headings(b)
    ensures Parser.Images(a + b) == Parser.Images(a) + Parser.Images(b)
    decreases |b|
  {
    if |b| == 0 {
      assert a + b == a;
    } else {
      var front := b[..|b| - 1];
      assert (a + b)[..|a + b| - 1] == a + front;
      assert (a + b)[|a + b| - 1] == b[|b| - 1];
      CollectAppend(a, front);
    }
  }

  /** A heading is collected exactly when it occurs among the elements, and likewise an
      image. */
  lemma {:induction false} CollectMembers(es: seq<Element>)
    ensures forall h :: h in Parser.Headings(es) <==> HeadingElement(h) in es
    ensures forall img :: img in Parser.Images(es) <==> ImageElement(img) in es
    decreases |es|
  {
    if |es| > 0 {
      var front := es[..|es| - 1];
      var last := es[|es| - 1];
      assert es == front + [last];
      CollectMembers(front);
      CollectAppend(front, [last]);
      Singleton(last);
    }
  }

  /** Only headings are collected as headings: the view is never longer than the list. */
  lemma {:induction false} CollectBounded(es: seq<Element>)
    ensures |Parser.Headings(es)| + |Parser.Images(es)| <= |es|
    decreases |es|
  {
    if |es| > 0 {
      CollectBounded(es[..|es| - 1]);
    }
  }

  /** Heading i is the first large one. */
  predicate FirstLarge(hs: seq<Heading>, i: int)
  {
    0 <= i < |hs| && hs[i].level == Large && forall j :: 0 <= j < i ==> hs[j].level != Large
  }

  /** The title is the text of the first large heading, and absent exactly when there is no
      large heading. */
  lemma {:induction false} TitleIsFirstLarge(hs: seq<Heading>)
    ensures forall i :: FirstLarge(hs, i) ==> Parser.Title(hs) == Some(hs[i].text)
    ensures Parser.Title(hs).None? <==> forall i :: 0 <= i < |hs| ==> hs[i].level != Large
    decreases |hs|
  {
    if |hs| > 0 && hs[0].level != Large {
      TitleIsFirstLarge(hs[1..]);
      forall i | FirstLarge(hs, i) ensures Parser.Title(hs) == Some(hs[i].text) {
        assert FirstLarge(hs[1..], i - 1);
      }
      if Parser.Title(hs).None? {
        forall i | 0 <= i < |hs| ensures hs[i].level != Large {
          if i > 0 {
            assert hs[i] == hs[1..][i - 1];
          }
        }
      } else {
        var k :| 0 <= k < |hs[1..]| && hs[1..][k].level == Large;
        assert hs[k + 1].level == Large;
      }
    } else if |hs| > 0 {
      forall i | FirstLarge(hs, i) ensures i == 0 {
        if i > 0 {
          assert false;
        }
      }
    }
  }

  /** The document within the size limit: its headings and images are exactly the heading
      and image elements of its element list, it has a title exactly when a large heading is
      among them, and its counts describe the text and the list. */
  lemma DocumentViews(config: Parser.ParserConfig, text: string, filename: string,
                      info: Option<Parser.EncodingInfo>, makeId: string -> string)
    ensures var d := Parser.DocumentOf(config, text, filename, info, makeId);
      (forall h :: h in d.headings <==> HeadingElement(h) in d.elements) &&
      (forall img :: img in d.images <==> ImageElement(img) in d.elements) &&
      (d.title.None? <==> forall h :: HeadingElement(h) in d.elements ==> h.level != Large) &&
      d.metadata.elementCount == |d.elements| &&
      d.metadata.fileSize == d.metadata.characterCount == |text|
  {
    var d := Parser.DocumentOf(config, text, filename, info, makeId);
    CollectMembers(d.elements);
    TitleIsFirstLarge(d.headings);
    if d.title.None? {
      forall h | HeadingElement(h) in d.elements ensures h.level != Large {
        var k :| 0 <= k < |d.headings| && d.headings[k] == h;
      }
    } else {
      var k :| 0 <= k < |d.headings| && d.headings[k].level == Large;
      assert HeadingElement(d.headings[k]) in d.elements;
    }
  }
}
