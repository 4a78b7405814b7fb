/** The arithmetic and grouping logic of the PDF extraction helpers
    (app/utils/pdfUtils.ts): document ids, bounding boxes of text lines and
    images, the grouping of a page's text items into lines, the numbering of a
    page's painted images and the OCR confidence filter. What pdf.js and
    Tesseract deliver (text items, operator lists, OCR lines, viewports) enters
    as plain data. */
module PdfUtils {
  import opened Types

  // ---------------------------------------------------------------------------
  // Document ids
  // ---------------------------------------------------------------------------

  /** Position of the first occurrence of `c` in `s`. */
  function FirstIndex(s: string, c: char): (i: nat)
    requires c in s
    ensures i < |s| && s[i] == c && c !in s[..i]
  {
    if s[0] == c then 0
    else
      var i := FirstIndex(s[1..], c);
      assert s[..i + 1] == [s[0]] + s[1..][..i];
      i + 1
  }

  /** JavaScript's `String.prototype.replace` with a one-character string
      pattern: only the first occurrence is rewritten. */
  function ReplaceFirst(s: string, c: char, rep: string): (r: string)
    ensures c !in s ==> r == s
  {
    if s == [] then s
    else if s[0] == c then rep + s[1..]
    else [s[0]] + ReplaceFirst(s[1..], c, rep)
  }

  /** The text before the first `c` is kept, the `c` becomes `rep`, and the
      text after it is kept; without a `c` nothing changes. */
  lemma ReplaceFirstAt(s: string, c: char, rep: string)
    ensures c !in s ==> ReplaceFirst(s, c, rep) == s
    ensures c in s ==> ReplaceFirst(s, c, rep) == s[..FirstIndex(s, c)] + rep + s[FirstIndex(s, c) + 1..]
  {
    if c in s {
      ReplaceFirstPresent(s, c, rep);
    }
  }

  lemma {:induction false} ReplaceFirstPresent(s: string, c: char, rep: string)
    requires c in s
    ensures ReplaceFirst(s, c, rep) == s[..FirstIndex(s, c)] + rep + s[FirstIndex(s, c) + 1..]
  {
    if s[0] != c {
      var tail := s[1..];
      assert c in tail by {
        assert s == [s[0]] + tail;
      }
      ReplaceFirstPresent(tail, c, rep);
      PresentStep(s, c, rep, FirstIndex(tail, c));
    }
  }

  /** The step of the induction: a first character other than `c` is kept in
      front of the tail's replacement, and the index moves by one. */
  lemma PresentStep(s: string, c: char, rep: string, i: nat)
    requires s != [] && s[0] != c && i < |s| - 1
    requires ReplaceFirst(s[1..], c, rep) == s[1..][..i] + rep + s[1..][i + 1..]
    ensures ReplaceFirst(s, c, rep) == s[..i + 1] + rep + s[i + 2..]
  {
    var tail := s[1..];
    calc {
      ReplaceFirst(s, c, rep);
      [s[0]] + (tail[..i] + rep + tail[i + 1..]);
      { assert s[..i + 1] == [s[0]] + tail[..i] by {
          assert forall k :: 0 <= k < i + 1 ==> s[..i + 1][k] == ([s[0]] + tail[..i])[k];
        }
      }
      s[..i + 1] + rep + tail[i + 1..];
      { assert s[i + 2..] == tail[i + 1..]; }
      s[..i + 1] + rep + s[i + 2..];
    }
  }

  /** A JavaScript string is truthy when it is present and not empty. */
  predicate Truthy(s: Option<string>)
  {
    s.Some? && s.value != ""
  }

  /** The id a document is stored under: its name with the first "." turned
      into "__", followed, when an e-mail address is given, by "__" and the
      address with its first "@" turned into "__at__" and then its first "."
      turned into "__". */
  function GetPdfId(name: string, email: Option<string>): (id: string)
    ensures ReplaceFirst(name, '.', "__") <= id
    ensures Truthy(email) <==> |id| > |ReplaceFirst(name, '.', "__")|
  {
    if Truthy(email) then
      ReplaceFirst(name, '.', "__") + "__" + ReplaceFirst(ReplaceFirst(email.value, '@', "__at__"), '.', "__")
    else ReplaceFirst(name, '.', "__")
  }

  /** Replacing the first occurrence by a text free of `c` removes exactly one
      `c` and leaves every later `c` in place. */
  lemma ReplaceFirstCount(s: string, c: char, rep: string)
    requires c in s && c !in rep
    ensures multiset(ReplaceFirst(s, c, rep))[c] == multiset(s)[c] - 1
  {
    ReplaceFirstAt(s, c, rep);
    SpliceCount(s, FirstIndex(s, c), c, rep);
  }

  /** Replacing the first `c`, at index i, by `rep` lowers the count of `c`
      by one. */
  lemma SpliceCount(s: string, i: nat, c: char, rep: string)
    requires i < |s| && s[i] == c && c !in s[..i] && c !in rep
    ensures multiset(s[..i] + rep + s[i + 1..])[c] == multiset(s)[c] - 1
  {
    var before, after := s[..i], s[i + 1..];
    assert s == before + [c] + after;
    CountSplice(before, after, c, rep);
  }

  /** Putting `rep` in place of one `c` removes that `c` from the count. */
  lemma CountSplice(before: string, after: string, c: char, rep: string)
    requires c !in before && c !in rep
    ensures multiset(before + rep + after)[c] == multiset(before + [c] + after)[c] - 1
  {
    assert multiset(before + [c] + after) == multiset(before) + multiset([c]) + multiset(after);
    assert multiset(before + rep + after) == multiset(before) + multiset(rep) + multiset(after);
    assert multiset(before)[c] == 0 && multiset(rep)[c] == 0;
  }

  /** Without an e-mail address, a name whose first "." splits it into `p`
      and `q` gets the id `p + "__" + q`: later dots stay. */
  lemma GetPdfIdName(name: string, email: Option<string>, p: string, q: string)
    requires !Truthy(email)
    requires name == p + "." + q && '.' !in p
    ensures GetPdfId(name, email) == p + "__" + q
  {
    ReplaceFirstSplit(name, '.', "__", p, q);
  }

  /** A plain address `u@d.t` (no dot before the "@") contributes
      `u__at__d__t`. */
  lemma GetPdfIdEmail(name: string, email: string, u: string, d: string, t: string)
    requires email == u + "@" + d + "." + t
    requires '@' !in u && '.' !in u && '.' !in d
    ensures GetPdfId(name, Some(email)) == GetPdfId(name, None) + "__" + u + "__at__" + d + "__" + t
  {
    var suffix := u + "__at__" + d + "__" + t;
    var base := GetPdfId(name, None) + "__";
    assert GetPdfId(name, Some(email)) == base + suffix by {
      PlainEmailSuffix(email, u, d, t);
      EmailId(name, email, suffix);
    }
    assert base + suffix == base + u + "__at__" + d + "__" + t;
  }

  /** The address part of the id, for a plain address. */
  lemma PlainEmailSuffix(email: string, u: string, d: string, t: string)
    requires email == u + "@" + d + "." + t
    requires '@' !in u && '.' !in u && '.' !in d
    ensures ReplaceFirst(ReplaceFirst(email, '@', "__at__"), '.', "__") == u + "__at__" + d + "__" + t
  {
    var rest := d + "." + t;
    var e1 := ReplaceFirst(email, '@', "__at__");
    var front := u + "__at__" + d;
    assert e1 == front + ['.'] + t by {
      assert email == u + ['@'] + rest;
      ReplaceFirstSplit(email, '@', "__at__", u, rest);
    }
    assert '.' !in front;
    ReplaceFirstSplit(e1, '.', "__", front, t);
  }

  /** With a non-empty address whose rewritten form is `suffix`, the id is the
      name's id, "__" and `suffix`. */
  lemma EmailId(name: string, email: string, suffix: string)
    requires email != []
    requires ReplaceFirst(ReplaceFirst(email, '@', "__at__"), '.', "__") == suffix
    ensures GetPdfId(name, Some(email)) == GetPdfId(name, None) + "__" + suffix
  {
    assert Truthy(Some(email));
  }

  /** An address with a dot before the "@", `a.b@v`, contributes
      `a__b__at__v`: the dot of the domain is kept. */
  lemma GetPdfIdDottedEmail(name: string, email: string, a: string, b: string, v: string)
    requires email == a + "." + b + "@" + v
    requires '.' !in a && '@' !in a && '@' !in b
    ensures GetPdfId(name, Some(email)) == GetPdfId(name, None) + "__" + a + "__" + b + "__at__" + v
  {
    var suffix := a + "__" + b + "__at__" + v;
    var base := GetPdfId(name, None) + "__";
    assert GetPdfId(name, Some(email)) == base + suffix by {
      DottedEmailSuffix(email, a, b, v);
      EmailId(name, email, suffix);
    }
    assert base + suffix == base + a + "__" + b + "__at__" + v;
  }

  /** The address part of the id, for an address with a dot before the "@". */
  lemma DottedEmailSuffix(email: string, a: string, b: string, v: string)
    requires email == a + "." + b + "@" + v
    requires '.' !in a && '@' !in a && '@' !in b
    ensures ReplaceFirst(ReplaceFirst(email, '@', "__at__"), '.', "__") == a + "__" + b + "__at__" + v
  {
    var local := a + "." + b;
    var e1 := ReplaceFirst(email, '@', "__at__");
    var rest := b + "__at__" + v;
    assert e1 == a + ['.'] + rest by {
      assert email == local + ['@'] + v;
      assert '@' !in local;
      ReplaceFirstSplit(email, '@', "__at__", local, v);
    }
    ReplaceFirstSplit(e1, '.', "__", a, rest);
  }

  /** Ids are not injective: "p.q" and "p__q" share an id. */
  lemma GetPdfIdCollision(p: string, q: string)
    requires '.' !in p && '.' !in q
    ensures GetPdfId(p + "." + q, None) == GetPdfId(p + "__" + q, None)
  {
    GetPdfIdName(p + "." + q, None, p, q);
    ReplaceFirstAt(p + "__" + q, '.', "__");
  }

  /** Splitting at a first occurrence given by its prefix `p`. */
  lemma {:induction false} ReplaceFirstSplit(s: string, c: char, rep: string, p: string, q: string)
    requires s == p + [c] + q && c !in p
    ensures ReplaceFirst(s, c, rep) == p + rep + q
    decreases |p|
  {
    if p != [] {
      assert s[0] == p[0];
      assert s[1..] == p[1..] + [c] + q;
      ReplaceFirstSplit(s[1..], c, rep, p[1..], q);
    }
  }

  // ---------------------------------------------------------------------------
  // Bounding boxes
  // ---------------------------------------------------------------------------

  /** A pdf.js text item: its string, its origin (`transform[4]`,
      `transform[5]`) and its size. */
  datatype TextItem = TextItem(str: string, x: real, y: real, width: real, height: real)

  function Last<T>(s: seq<T>): T
    requires s != []
  {
    s[|s| - 1]
  }

  /** The tallest item of a line (`Math.max` over the heights). */
  function MaxHeight(items: seq<TextItem>): (m: real)
    requires items != []
    ensures forall i :: 0 <= i < |items| ==> items[i].height <= m
    ensures exists i :: 0 <= i < |items| && items[i].height == m
  {
    if |items| == 1 then items[0].height
    else
      var m := MaxHeight(items[1..]);
      assert forall i :: 1 <= i < |items| ==> items[i] == items[1..][i - 1];
      Max(items[0].height, m)
  }

  /** The highlight of one text line. Taking the first item of an empty line
      throws, which surfaces as `EmptyLine`. */
  function ProcessLine(pdfId: string, lineItems: seq<TextItem>, text: string, pageNumber: int,
                       lineNumber: int, viewport: Viewport): (r: Result<StoredHighlight>)
    ensures r.Failure? <==> lineItems == []
    ensures r.Success? ==>
      var h := r.value;
      && h.y1 <= h.y2
      && h.x1 == lineItems[0].x
      && h.x2 == Last(lineItems).x + Last(lineItems).width
      && h.pdfId == pdfId && h.pageNumber == pageNumber && h.lineNumber == Some(lineNumber)
      && h.width == viewport.width && h.height == viewport.height
      && h.text == text && h.image == None && h.keyword == None
  {
    if lineItems == [] then Failure(EmptyLine)
    else
      var start := lineItems[0];
      var end := Last(lineItems);
      var flipped1 := viewport.height - start.y;
      var flipped2 := viewport.height - (start.y + MaxHeight(lineItems));
      Success(StoredHighlight(pdfId, pageNumber, Some(lineNumber), start.x, Min(flipped1, flipped2),
                             end.x + end.width, Max(flipped1, flipped2), viewport.width, viewport.height,
                             text, None, None))
  }

  /** With non-negative heights the line's box runs from the flipped baseline
      up by the tallest item, so it is tall enough for every item. */
  lemma ProcessLineSpan(pdfId: string, lineItems: seq<TextItem>, text: string, pageNumber: int,
                        lineNumber: int, viewport: Viewport)
    requires lineItems != []
    requires forall i :: 0 <= i < |lineItems| ==> 0.0 <= lineItems[i].height
    ensures var h := ProcessLine(pdfId, lineItems, text, pageNumber, lineNumber, viewport).value;
      && h.y2 == viewport.height - lineItems[0].y
      && h.y1 == viewport.height - lineItems[0].y - MaxHeight(lineItems)
      && forall i :: 0 <= i < |lineItems| ==> lineItems[i].height <= h.y2 - h.y1
  {
    assert 0.0 <= lineItems[0].height <= MaxHeight(lineItems);
  }

  /** The highlight of an image region whose top-left corner is (x1, y1). */
  function ProcessImage(pdfId: string, x1: real, y1: real, width: real, height: real, pageNumber: int,
                        lineNumber: int, viewport: Viewport, text: string, image: Option<string>): (h: StoredHighlight)
    ensures h.x1 == x1 && h.x2 - h.x1 == width
    ensures h.y1 <= h.y2 && h.y2 - h.y1 == Abs(height)
    ensures h.y1 == y1 || h.y2 == y1
    ensures h.y1 == y1 - height || h.y2 == y1 - height
    ensures h.pdfId == pdfId && h.pageNumber == pageNumber && h.lineNumber == Some(lineNumber)
    ensures h.width == viewport.width && h.height == viewport.height && h.text == text
    ensures h.image.Some? <==> Truthy(image)
    ensures h.image.Some? ==> h.image == image
    ensures h.keyword == None
  {
    var x2 := x1 + width;
    var y2 := y1 - height;
    StoredHighlight(pdfId, pageNumber, Some(lineNumber), x1, Min(y1, y2), x2, Max(y1, y2),
                    viewport.width, viewport.height, text, if Truthy(image) then image else None, None)
  }

  // ---------------------------------------------------------------------------
  // Grouping text items into lines (getLines)
  // ---------------------------------------------------------------------------

  /** The concatenated strings of some items. */
  function Text(items: seq<TextItem>): string
    decreases |items|
  {
    if items == [] then "" else Text(items[..|items| - 1]) + Last(items).str
  }

  /** The runs laid end to end. */
  function Flatten(runs: seq<seq<TextItem>>): seq<TextItem>
    decreases |runs|
  {
    if runs == [] then [] else Flatten(runs[..|runs| - 1]) + Last(runs)
  }

  /** The lines the grouping loop forms: each item joins the current line when
      it has the y of the item before it and starts a new line otherwise. */
  function Runs(items: seq<TextItem>): (runs: seq<seq<TextItem>>)
    ensures forall k :: 0 <= k < |runs| ==> runs[k] != []
    ensures items == [] <==> runs == []
    decreases |items|
  {
    if items == [] then []
    else
      var init := Runs(items[..|items| - 1]);
      var item := Last(items);
      if init != [] && Last(Last(init)).y == item.y then init[..|init| - 1] + [Last(init) + [item]]
      else init + [[item]]
  }

  /** A split of `items` into lines: no line is empty, all items of a line share
      a y, neighbouring lines differ in y, and the lines laid end to end give
      back the items. */
  ghost predicate IsLineSplit(items: seq<TextItem>, runs: seq<seq<TextItem>>)
  {
    && (forall k :: 0 <= k < |runs| ==> runs[k] != [])
    && (forall k, i :: 0 <= k < |runs| && 0 <= i < |runs[k]| ==> runs[k][i].y == runs[k][0].y)
    && (forall k :: 0 < k < |runs| ==> Last(runs[k - 1]).y != runs[k][0].y)
    && Flatten(runs) == items
  }

  lemma FlattenSnoc(runs: seq<seq<TextItem>>, run: seq<TextItem>)
    ensures Flatten(runs + [run]) == Flatten(runs) + run
  {
    assert (runs + [run])[..|runs|] == runs;
  }

  lemma TextSnoc(items: seq<TextItem>, item: TextItem)
    ensures Text(items + [item]) == Text(items) + item.str
  {
    assert (items + [item])[..|items|] == items;
  }

  lemma RunsSnoc(items: seq<TextItem>, item: TextItem)
    ensures var init := Runs(items);
      Runs(items + [item]) ==
        if init != [] && Last(Last(init)).y == item.y then init[..|init| - 1] + [Last(init) + [item]]
        else init + [[item]]
  {
    assert (items + [item])[..|items|] == items;
  }

  /** An item with the y of the last line joins that line. */
  lemma ExtendLine(items: seq<TextItem>, runs: seq<seq<TextItem>>, item: TextItem)
    requires IsLineSplit(items, runs) && runs != [] && Last(Last(runs)).y == item.y
    ensures IsLineSplit(items + [item], runs[..|runs| - 1] + [Last(runs) + [item]])
  {
    var front := runs[..|runs| - 1];
    var line := Last(runs);
    var runs': seq<seq<TextItem>> := front + [line + [item]];
    assert Flatten(runs') == items + [item] by {
      assert runs == front + [line];
      FlattenSnoc(front, line);
      FlattenSnoc(front, line + [item]);
    }
    assert forall k :: 0 <= k < |runs'| ==> runs'[k] != [] by {
      forall k | 0 <= k < |runs'| ensures runs'[k] != [] {
        if k < |front| {
          assert runs'[k] == runs[k];
        }
      }
    }
    assert forall k, i :: 0 <= k < |runs'| && 0 <= i < |runs'[k]| ==> runs'[k][i].y == runs'[k][0].y by {
      forall k, i | 0 <= k < |runs'| && 0 <= i < |runs'[k]| ensures runs'[k][i].y == runs'[k][0].y {
        if k < |front| {
          assert runs'[k] == runs[k];
        } else if i < |line| {
          assert runs'[k][i] == runs[k][i] && runs'[k][0] == runs[k][0];
        } else {
          assert runs'[k][i] == item && runs'[k][0] == runs[k][0];
          assert Last(line) == runs[k][|line| - 1];
        }
      }
    }
    assert forall k :: 0 < k < |runs'| ==> Last(runs'[k - 1]).y != runs'[k][0].y by {
      forall k | 0 < k < |runs'| ensures Last(runs'[k - 1]).y != runs'[k][0].y {
        assert runs'[k - 1] == runs[k - 1];
        assert runs'[k][0] == runs[k][0];
      }
    }
  }

  /** An item with another y starts a new line. */
  lemma StartLine(items: seq<TextItem>, runs: seq<seq<TextItem>>, item: TextItem)
    requires IsLineSplit(items, runs) && (runs == [] || Last(Last(runs)).y != item.y)
    ensures IsLineSplit(items + [item], runs + [[item]])
  {
    FlattenSnoc(runs, [item]);
    var runs': seq<seq<TextItem>> := runs + [[item]];
    forall k | 0 <= k < |runs'| ensures runs'[k] != [] {
      if k < |runs| {
        assert runs'[k] == runs[k];
      }
    }
    forall k | 0 < k < |runs'| ensures Last(runs'[k - 1]).y != runs'[k][0].y {
      assert runs'[k - 1] == runs[k - 1];
    }
  }

  /** The lines formed are a split into maximal runs of equal y. */
  lemma {:induction false} RunsAreLineSplit(items: seq<TextItem>)
    ensures IsLineSplit(items, Runs(items))
    decreases |items|
  {
    if items != [] {
      var init := items[..|items| - 1];
      var item := Last(items);
      assert items == init + [item];
      RunsAreLineSplit(init);
      RunsSnoc(init, item);
      var runs := Runs(init);
      if runs != [] && Last(Last(runs)).y == item.y {
        ExtendLine(init, runs, item);
      } else {
        StartLine(init, runs, item);
      }
    }
  }

  /** Dropping a last line of one item leaves a split of the other items,
      whose last line has another y than the dropped item. */
  lemma DropLastLine(items: seq<TextItem>, runs: seq<seq<TextItem>>)
    requires IsLineSplit(items, runs) && runs != [] && |Last(runs)| == 1
    ensures items != [] && Last(runs) == [Last(items)]
    ensures IsLineSplit(items[..|items| - 1], runs[..|runs| - 1])
    ensures runs[..|runs| - 1] != [] ==> Last(Last(runs[..|runs| - 1])).y != Last(items).y
  {
    var front := runs[..|runs| - 1];
    var line := Last(runs);
    assert items == Flatten(front) + [line[0]] by {
      assert runs == front + [line];
      FlattenSnoc(front, line);
      assert line == [line[0]];
    }
    assert items[..|items| - 1] == Flatten(front);
    assert IsLineSplit(items[..|items| - 1], front) by {
      forall k | 0 <= k < |front| ensures front[k] != [] {
        assert front[k] == runs[k];
      }
      forall k, i | 0 <= k < |front| && 0 <= i < |front[k]| ensures front[k][i].y == front[k][0].y {
        assert front[k] == runs[k];
      }
      forall k | 0 < k < |front| ensures Last(front[k - 1]).y != front[k][0].y {
        assert front[k - 1] == runs[k - 1] && front[k] == runs[k];
      }
    }
    if front != [] {
      assert Last(front) == runs[|runs| - 2];
    }
  }

  /** Dropping the last item of a last line of several items leaves a split of
      the other items, whose last line has the dropped item's y. */
  lemma ShortenLastLine(items: seq<TextItem>, runs: seq<seq<TextItem>>)
    requires IsLineSplit(items, runs) && runs != [] && |Last(runs)| > 1
    ensures items != []
    ensures var runs' := runs[..|runs| - 1] + [Last(runs)[..|Last(runs)| - 1]];
      && IsLineSplit(items[..|items| - 1], runs')
      && Last(Last(runs')).y == Last(items).y
      && runs == runs'[..|runs'| - 1] + [Last(runs') + [Last(items)]]
  {
    var front := runs[..|runs| - 1];
    var lastRun := Last(runs);
    var shorter := lastRun[..|lastRun| - 1];
    var runs' := front + [shorter];
    assert items[..|items| - 1] == Flatten(runs') && Last(items) == Last(lastRun) by {
      assert runs == front + [lastRun];
      FlattenSnoc(front, lastRun);
      FlattenSnoc(front, shorter);
      assert lastRun == shorter + [Last(lastRun)];
    }
    ShortenKeepsShape(items, runs);
    assert runs == runs'[..|runs'| - 1] + [Last(runs') + [Last(items)]] by {
      assert runs'[..|runs'| - 1] == front;
      assert lastRun == shorter + [Last(lastRun)];
    }
  }

  /** The line properties of a split survive dropping the last item of a last
      line of several items, and that line keeps the dropped item's y. */
  lemma ShortenKeepsShape(items: seq<TextItem>, runs: seq<seq<TextItem>>)
    requires IsLineSplit(items, runs) && runs != [] && |Last(runs)| > 1
    ensures var runs' := runs[..|runs| - 1] + [Last(runs)[..|Last(runs)| - 1]];
      && (forall k :: 0 <= k < |runs'| ==> runs'[k] != [])
      && (forall k, i :: 0 <= k < |runs'| && 0 <= i < |runs'[k]| ==> runs'[k][i].y == runs'[k][0].y)
      && (forall k :: 0 < k < |runs'| ==> Last(runs'[k - 1]).y != runs'[k][0].y)
      && Last(Last(runs')).y == Last(Last(runs)).y
  {
    var runs': seq<seq<TextItem>> := runs[..|runs| - 1] + [Last(runs)[..|Last(runs)| - 1]];
    forall k | 0 <= k < |runs'| ensures runs'[k] != [] {
      if k < |runs| - 1 {
        assert runs'[k] == runs[k];
      }
    }
    forall k | 0 < k < |runs'| ensures Last(runs'[k - 1]).y != runs'[k][0].y {
      assert runs'[k - 1] == runs[k - 1];
      assert runs'[k][0] == runs[k][0];
    }
    forall k, i | 0 <= k < |runs'| && 0 <= i < |runs'[k]| ensures runs'[k][i].y == runs'[k][0].y {
      assert runs'[k][i] == runs[k][i];
      assert runs'[k][0] == runs[k][0];
    }
    assert Last(Last(runs')) == runs[|runs| - 1][|Last(runs)| - 2];
  }

  /** There is only one split into lines: the one the grouping loop forms. */
  lemma {:induction false} LineSplitUnique(items: seq<TextItem>, runs: seq<seq<TextItem>>)
    requires IsLineSplit(items, runs)
    ensures runs == Runs(items)
    decreases |items|
  {
    if runs != [] {
      var init := items[..|items| - 1];
      if |Last(runs)| == 1 {
        DropLastLine(items, runs);
        LineSplitUnique(init, runs[..|runs| - 1]);
        assert runs == runs[..|runs| - 1] + [Last(runs)];
      } else {
        ShortenLastLine(items, runs);
        var runs' := runs[..|runs| - 1] + [Last(runs)[..|Last(runs)| - 1]];
        LineSplitUnique(init, runs');
      }
    }
  }

  /** The highlight of a non-empty line. */
  function LineOf(pdfId: string, run: seq<TextItem>, pageNumber: int, lineNumber: int, viewport: Viewport): StoredHighlight
    requires run != []
  {
    ProcessLine(pdfId, run, Text(run), pageNumber, lineNumber, viewport).value
  }

  /** The number of items in the first `k` lines: where line k starts. */
  function LineStart(runs: seq<seq<TextItem>>, k: nat): nat
    requires k <= |runs|
  {
    |Flatten(runs[..k])|
  }

  /** The highlights of the lines closed inside the loop: a line is closed
      when the item at index j starts a new y, and gets number j + 1. */
  function ClosedLines(pdfId: string, runs: seq<seq<TextItem>>, pageNumber: int, viewport: Viewport): seq<StoredHighlight>
    requires forall k :: 0 <= k < |runs| ==> runs[k] != []
    decreases |runs|
  {
    if runs == [] then []
    else
      ClosedLines(pdfId, runs[..|runs| - 1], pageNumber, viewport)
        + [LineOf(pdfId, Last(runs), pageNumber, |Flatten(runs)| + 1, viewport)]
  }

  lemma ClosedLinesSnoc(pdfId: string, runs: seq<seq<TextItem>>, run: seq<TextItem>, pageNumber: int, viewport: Viewport)
    requires forall k :: 0 <= k < |runs| ==> runs[k] != []
    requires run != []
    ensures ClosedLines(pdfId, runs + [run], pageNumber, viewport)
      == ClosedLines(pdfId, runs, pageNumber, viewport) + [LineOf(pdfId, run, pageNumber, |Flatten(runs)| + |run| + 1, viewport)]
  {
    assert (runs + [run])[..|runs|] == runs;
    FlattenSnoc(runs, run);
  }

  lemma {:induction false} ClosedLinesLength(pdfId: string, runs: seq<seq<TextItem>>, pageNumber: int, viewport: Viewport)
    requires forall k :: 0 <= k < |runs| ==> runs[k] != []
    ensures |ClosedLines(pdfId, runs, pageNumber, viewport)| == |runs|
    decreases |runs|
  {
    if runs != [] {
      ClosedLinesLength(pdfId, runs[..|runs| - 1], pageNumber, viewport);
    }
  }

  /** Closed line k is numbered one past the item count of lines 0..k. */
  lemma {:induction false} ClosedLinesAt(pdfId: string, runs: seq<seq<TextItem>>, pageNumber: int, viewport: Viewport, k: nat)
    requires forall k :: 0 <= k < |runs| ==> runs[k] != []
    requires k < |runs|
    ensures |ClosedLines(pdfId, runs, pageNumber, viewport)| == |runs|
    ensures ClosedLines(pdfId, runs, pageNumber, viewport)[k]
      == LineOf(pdfId, runs[k], pageNumber, LineStart(runs, k + 1) + 1, viewport)
    decreases |runs|
  {
    if k == |runs| - 1 {
      ClosedLinesLast(pdfId, runs, pageNumber, viewport);
    } else {
      var init := runs[..|runs| - 1];
      ClosedLinesAt(pdfId, init, pageNumber, viewport, k);
      ClosedLinesKeep(pdfId, runs, pageNumber, viewport, k);
    }
  }

  /** The last closed line is numbered one past the item count of all lines. */
  lemma ClosedLinesLast(pdfId: string, runs: seq<seq<TextItem>>, pageNumber: int, viewport: Viewport)
    requires forall k :: 0 <= k < |runs| ==> runs[k] != []
    requires runs != []
    ensures |ClosedLines(pdfId, runs, pageNumber, viewport)| == |runs|
    ensures ClosedLines(pdfId, runs, pageNumber, viewport)[|runs| - 1]
      == LineOf(pdfId, runs[|runs| - 1], pageNumber, LineStart(runs, |runs|) + 1, viewport)
  {
    ClosedLinesLength(pdfId, runs, pageNumber, viewport);
    ClosedLinesLength(pdfId, runs[..|runs| - 1], pageNumber, viewport);
    assert runs[..|runs|] == runs;
  }

  /** Closed lines before the last are those of the shorter sequence. */
  lemma ClosedLinesKeep(pdfId: string, runs: seq<seq<TextItem>>, pageNumber: int, viewport: Viewport, k: nat)
    requires forall k :: 0 <= k < |runs| ==> runs[k] != []
    requires k < |runs| - 1
    ensures var init := runs[..|runs| - 1];
      && |ClosedLines(pdfId, runs, pageNumber, viewport)| == |runs|
      && ClosedLines(pdfId, runs, pageNumber, viewport)[k] == ClosedLines(pdfId, init, pageNumber, viewport)[k]
      && LineStart(init, k + 1) == LineStart(runs, k + 1)
      && init[k] == runs[k]
  {
    var init := runs[..|runs| - 1];
    ClosedLinesLength(pdfId, runs, pageNumber, viewport);
    ClosedLinesLength(pdfId, init, pageNumber, viewport);
    assert init[..k + 1] == runs[..k + 1];
  }

  /** The highlights the grouping loop emits for one page: the closed lines,
      then the final line, numbered with the page's item count. */
  function PageLines(pdfId: string, items: seq<TextItem>, pageNumber: int, viewport: Viewport): (hs: seq<StoredHighlight>)
    ensures |hs| == |Runs(items)|
    ensures hs == [] <==> items == []
  {
    var runs := Runs(items);
    if runs == [] then []
    else
      ClosedLinesLength(pdfId, runs[..|runs| - 1], pageNumber, viewport);
      ClosedLines(pdfId, runs[..|runs| - 1], pageNumber, viewport)
        + [LineOf(pdfId, Last(runs), pageNumber, |items|, viewport)]
  }

  /** The loop's view of `Runs` when the item at index j starts a new line. */
  lemma RunsCloseStep(items: seq<TextItem>, j: nat, closed: seq<seq<TextItem>>, lineItems: seq<TextItem>)
    requires j < |items| && lineItems != []
    requires Runs(items[..j]) == closed + [lineItems] && Last(lineItems).y != items[j].y
    ensures Runs(items[..j + 1]) == (closed + [lineItems]) + [[items[j]]]
  {
    assert items[..j + 1] == items[..j] + [items[j]];
    RunsSnoc(items[..j], items[j]);
  }

  /** The loop's view of `Runs` when the item at index j joins the current
      line. */
  lemma RunsExtendStep(items: seq<TextItem>, j: nat, closed: seq<seq<TextItem>>, lineItems: seq<TextItem>)
    requires j < |items|
    requires j == 0 ==> closed == [] && lineItems == []
    requires j > 0 ==> lineItems != [] && Runs(items[..j]) == closed + [lineItems] && Last(lineItems).y == items[j].y
    ensures Runs(items[..j + 1]) == closed + [lineItems + [items[j]]]
  {
    assert items[..j + 1] == items[..j] + [items[j]];
    RunsSnoc(items[..j], items[j]);
    if j > 0 {
      assert (closed + [lineItems])[..|closed|] == closed;
    }
  }

  /** The state of the grouping loop before the item at index j: `closed`
      holds the lines already emitted as `highlights`, `lineItems` and
      `textLine` the current line, `lastY` the y of the item before j. */
  ghost predicate GroupingState(pdfId: string, items: seq<TextItem>, pageNum: int, viewport: Viewport, j: nat,
                                closed: seq<seq<TextItem>>, lineItems: seq<TextItem>, lastY: Option<real>,
                                textLine: string, highlights: seq<StoredHighlight>)
  {
    && j <= |items|
    && (forall k :: 0 <= k < |closed| ==> closed[k] != [])
    && (lineItems == []) == (j == 0)
    && (j == 0 ==> closed == [])
    && Runs(items[..j]) == (if j == 0 then [] else closed + [lineItems])
    && (j > 0 ==> lastY == Some(Last(lineItems).y))
    && textLine == Text(lineItems)
    && |Flatten(closed)| + |lineItems| == j
    && highlights == ClosedLines(pdfId, closed, pageNum, viewport)
  }

  /** An item with a new y closes the current line, numbered j + 1, and
      starts the next one. */
  lemma GroupingClose(pdfId: string, items: seq<TextItem>, pageNum: int, viewport: Viewport, j: nat,
                      closed: seq<seq<TextItem>>, lineItems: seq<TextItem>, lastY: Option<real>,
                      textLine: string, highlights: seq<StoredHighlight>)
    requires GroupingState(pdfId, items, pageNum, viewport, j, closed, lineItems, lastY, textLine, highlights)
    requires j < |items| && lineItems != [] && lastY != Some(items[j].y)
    ensures ProcessLine(pdfId, lineItems, textLine, pageNum, j + 1, viewport).Success?
    ensures GroupingState(pdfId, items, pageNum, viewport, j + 1, closed + [lineItems], [] + [items[j]], Some(items[j].y),
                          "" + items[j].str, highlights + [ProcessLine(pdfId, lineItems, textLine, pageNum, j + 1, viewport).value])
  {
    var closed' := closed + [lineItems];
    var line := [] + [items[j]];
    var h := ProcessLine(pdfId, lineItems, textLine, pageNum, j + 1, viewport).value;
    assert line == [items[j]];
    assert Runs(items[..j + 1]) == closed' + [line] by {
      RunsCloseStep(items, j, closed, lineItems);
    }
    assert "" + items[j].str == Text(line) by {
      TextSnoc([], items[j]);
    }
    assert |Flatten(closed')| + |line| == j + 1 by {
      FlattenSnoc(closed, lineItems);
    }
    assert highlights + [h] == ClosedLines(pdfId, closed', pageNum, viewport) by {
      ClosedLinesSnoc(pdfId, closed, lineItems, pageNum, viewport);
    }
    assert forall k :: 0 <= k < |closed'| ==> closed'[k] != [] by {
      forall k | 0 <= k < |closed'| ensures closed'[k] != [] {
        if k < |closed| {
          assert closed'[k] == closed[k];
        }
      }
    }
  }

  /** An item with the current y, or the first item, joins the current line. */
  lemma GroupingExtend(pdfId: string, items: seq<TextItem>, pageNum: int, viewport: Viewport, j: nat,
                       closed: seq<seq<TextItem>>, lineItems: seq<TextItem>, lastY: Option<real>,
                       textLine: string, highlights: seq<StoredHighlight>)
    requires GroupingState(pdfId, items, pageNum, viewport, j, closed, lineItems, lastY, textLine, highlights)
    requires j < |items| && (lineItems == [] || lastY == Some(items[j].y))
    ensures GroupingState(pdfId, items, pageNum, viewport, j + 1, closed, lineItems + [items[j]], Some(items[j].y),
                          textLine + items[j].str, highlights)
  {
    RunsExtendStep(items, j, closed, lineItems);
    TextSnoc(lineItems, items[j]);
  }

  /** After the last item, emitting the open line, if any, numbered with the
      item count, gives the page's lines. */
  lemma GroupingDone(pdfId: string, items: seq<TextItem>, pageNum: int, viewport: Viewport,
                     closed: seq<seq<TextItem>>, lineItems: seq<TextItem>, lastY: Option<real>,
                     textLine: string, highlights: seq<StoredHighlight>)
    requires GroupingState(pdfId, items, pageNum, viewport, |items|, closed, lineItems, lastY, textLine, highlights)
    ensures lineItems != [] ==> ProcessLine(pdfId, lineItems, textLine, pageNum, |items|, viewport).Success?
    ensures PageLines(pdfId, items, pageNum, viewport)
      == if lineItems == [] then highlights
         else highlights + [ProcessLine(pdfId, lineItems, textLine, pageNum, |items|, viewport).value]
  {
    assert items[..|items|] == items;
    if lineItems != [] {
      ghost var runs := closed + [lineItems];
      assert runs[..|runs| - 1] == closed;
    }
  }

  /** The grouping loop of `getLines` over one page's text items. */
  method GroupLines(pdfId: string, textItems: seq<TextItem>, pageNum: int, viewport: Viewport)
    returns (highlights: seq<StoredHighlight>)
    ensures highlights == PageLines(pdfId, textItems, pageNum, viewport)
  {
    var lastY: Option<real> := None;
    var textLine := "";
    var lineItems: seq<TextItem> := [];
    highlights := [];
    ghost var closed: seq<seq<TextItem>> := [];
    for j := 0 to |textItems|
      invariant GroupingState(pdfId, textItems, pageNum, viewport, j, closed, lineItems, lastY, textLine, highlights)
    {
      var item := textItems[j];
      if lastY != Some(item.y) && |lineItems| > 0 {
        GroupingClose(pdfId, textItems, pageNum, viewport, j, closed, lineItems, lastY, textLine, highlights);
        var r := ProcessLine(pdfId, lineItems, textLine, pageNum, j + 1, viewport);
        highlights := highlights + [r.value];
        closed := closed + [lineItems];
        textLine := "";
        lineItems := [];
      } else {
        GroupingExtend(pdfId, textItems, pageNum, viewport, j, closed, lineItems, lastY, textLine, highlights);
      }
      textLine := textLine + item.str;
      lineItems := lineItems + [item];
      lastY := Some(item.y);
    }
    GroupingDone(pdfId, textItems, pageNum, viewport, closed, lineItems, lastY, textLine, highlights);
    if |lineItems| > 0 {
      var r := ProcessLine(pdfId, lineItems, textLine, pageNum, |textItems|, viewport);
      highlights := highlights + [r.value];
    }
  }

  // ---------------------------------------------------------------------------
  // What the emitted lines say
  // ---------------------------------------------------------------------------

  lemma {:induction false} FlattenAppend(a: seq<seq<TextItem>>, b: seq<seq<TextItem>>)
    ensures Flatten(a + b) == Flatten(a) + Flatten(b)
    decreases |b|
  {
    if b != [] {
      var b' := b[..|b| - 1];
      FlattenAppend(a, b');
      assert (a + b)[..|a + b| - 1] == a + b';
      assert Last(a + b) == Last(b);
      calc {
        Flatten(a + b);
        Flatten(a + b') + Last(b);
        Flatten(a) + Flatten(b') + Last(b);
        Flatten(a) + (Flatten(b') + Last(b));
        Flatten(a) + Flatten(b);
      }
    } else {
      assert a + b == a;
    }
  }

  /** Every line but the last is numbered one past the item count of the
      lines up to it; the last line is numbered with the page's item count. */
  lemma PageLineNumbers(pdfId: string, items: seq<TextItem>, pageNumber: int, viewport: Viewport)
    ensures var runs := Runs(items);
      var hs := PageLines(pdfId, items, pageNumber, viewport);
      && |hs| == |runs|
      && forall k :: 0 <= k < |runs| ==>
           hs[k] == LineOf(pdfId, runs[k], pageNumber, if k < |runs| - 1 then LineStart(runs, k + 1) + 1 else |items|, viewport)
  {
    var runs := Runs(items);
    var hs := PageLines(pdfId, items, pageNumber, viewport);
    if runs != [] {
      var front := runs[..|runs| - 1];
      ClosedLinesLength(pdfId, front, pageNumber, viewport);
      forall k | 0 <= k < |runs|
        ensures hs[k] == LineOf(pdfId, runs[k], pageNumber, if k < |runs| - 1 then LineStart(runs, k + 1) + 1 else |items|, viewport)
      {
        if k < |runs| - 1 {
          ClosedLinesAt(pdfId, front, pageNumber, viewport, k);
          assert front[..k + 1] == runs[..k + 1];
        }
      }
    }
  }

  /** Where line k > 0 starts is the index of the item that closed line k - 1:
      the first item of line k, whose y differs from the item before it, the
      last of line k - 1. With the numbering above, a line closed by the item
      at index j is numbered j + 1. */
  lemma LineBoundaries(items: seq<TextItem>)
    ensures forall k :: 0 < k < |Runs(items)| ==> LineBoundary(items, Runs(items), k)
  {
    var runs := Runs(items);
    RunsAreLineSplit(items);
    forall k | 0 < k < |runs| ensures LineBoundary(items, runs, k) {
      FlattenSplit(runs, k);
    }
  }

  /** Line k of `runs` starts at the item that closed line k - 1. */
  ghost predicate LineBoundary(items: seq<TextItem>, runs: seq<seq<TextItem>>, k: nat)
    requires 0 < k < |runs| && runs[k - 1] != [] && runs[k] != []
  {
    var j := LineStart(runs, k);
    0 < j < |items| && items[j] == runs[k][0] && items[j - 1] == Last(runs[k - 1]) && items[j - 1].y != items[j].y
  }

  /** Laid end to end, line k starts right after the last item of line
      k - 1. */
  lemma FlattenSplit(runs: seq<seq<TextItem>>, k: nat)
    requires 0 < k < |runs| && runs[k] != [] && runs[k - 1] != []
    ensures var j := |Flatten(runs[..k])|;
      0 < j < |Flatten(runs)| && Flatten(runs)[j] == runs[k][0] && Flatten(runs)[j - 1] == Last(runs[k - 1])
  {
    var before := Flatten(runs[..k - 1]);
    var rest := Flatten(runs[k + 1..]);
    assert Flatten(runs[..k]) == before + runs[k - 1] by {
      assert runs[..k] == runs[..k - 1] + [runs[k - 1]];
      FlattenSnoc(runs[..k - 1], runs[k - 1]);
    }
    assert Flatten(runs[..k + 1]) == Flatten(runs[..k]) + runs[k] by {
      assert runs[..k + 1] == runs[..k] + [runs[k]];
      FlattenSnoc(runs[..k], runs[k]);
    }
    assert Flatten(runs) == Flatten(runs[..k + 1]) + rest by {
      assert runs == runs[..k + 1] + runs[k + 1..];
      FlattenAppend(runs[..k + 1], runs[k + 1..]);
    }
    var j := |before| + |runs[k - 1]|;
    assert Flatten(runs) == (before + runs[k - 1]) + (runs[k] + rest);
    assert Flatten(runs)[j] == runs[k][0];
    assert Flatten(runs)[j - 1] == runs[k - 1][|runs[k - 1]| - 1];
  }

  /** The last two lines of a page get the same number exactly when the last
      line holds a single item. */
  lemma LastTwoLinesShareNumber(pdfId: string, items: seq<TextItem>, pageNumber: int, viewport: Viewport)
    requires |Runs(items)| >= 2
    ensures var runs := Runs(items);
      var hs := PageLines(pdfId, items, pageNumber, viewport);
      hs[|hs| - 2].lineNumber == hs[|hs| - 1].lineNumber <==> |Last(runs)| == 1
  {
    var runs := Runs(items);
    var hs := PageLines(pdfId, items, pageNumber, viewport);
    var n := |runs|;
    assert |hs| == n && hs[n - 2].lineNumber == Some(LineStart(runs, n - 1) + 1) && hs[n - 1].lineNumber == Some(|items|) by {
      PageLineNumbers(pdfId, items, pageNumber, viewport);
    }
    assert LineStart(runs, n - 1) + |Last(runs)| == |items| by {
      RunsAreLineSplit(items);
      assert runs == runs[..n - 1] + [Last(runs)];
      FlattenSnoc(runs[..n - 1], Last(runs));
    }
  }

  function TextAll(hs: seq<StoredHighlight>): string
    decreases |hs|
  {
    if hs == [] then "" else TextAll(hs[..|hs| - 1]) + Last(hs).text
  }

  function RunTexts(runs: seq<seq<TextItem>>): string
    decreases |runs|
  {
    if runs == [] then "" else RunTexts(runs[..|runs| - 1]) + Text(Last(runs))
  }

  lemma {:induction false} TextAppend(a: seq<TextItem>, b: seq<TextItem>)
    ensures Text(a + b) == Text(a) + Text(b)
    decreases |b|
  {
    if b != [] {
      var b' := b[..|b| - 1];
      TextAppend(a, b');
      assert (a + b)[..|a + b| - 1] == a + b';
      assert Last(a + b) == Last(b);
      calc {
        Text(a + b);
        Text(a + b') + Last(b).str;
        Text(a) + Text(b') + Last(b).str;
        Text(a) + (Text(b') + Last(b).str);
        Text(a) + Text(b);
      }
    } else {
      assert a + b == a;
    }
  }

  lemma {:induction false} TextFlatten(runs: seq<seq<TextItem>>)
    ensures Text(Flatten(runs)) == RunTexts(runs)
    decreases |runs|
  {
    if runs != [] {
      TextFlatten(runs[..|runs| - 1]);
      TextAppend(Flatten(runs[..|runs| - 1]), Last(runs));
    }
  }

  lemma {:induction false} TextAllOfLines(hs: seq<StoredHighlight>, runs: seq<seq<TextItem>>)
    requires |hs| == |runs|
    requires forall k :: 0 <= k < |hs| ==> hs[k].text == Text(runs[k])
    ensures TextAll(hs) == RunTexts(runs)
    decreases |hs|
  {
    if hs != [] {
      TextAllOfLines(hs[..|hs| - 1], runs[..|runs| - 1]);
    }
  }

  /** Nothing is lost or reordered: the emitted lines' texts laid end to end
      are the page's item strings laid end to end. */
  lemma PageLinesText(pdfId: string, items: seq<TextItem>, pageNumber: int, viewport: Viewport)
    ensures TextAll(PageLines(pdfId, items, pageNumber, viewport)) == Text(items)
  {
    var runs := Runs(items);
    var hs := PageLines(pdfId, items, pageNumber, viewport);
    PageLinesTexts(pdfId, items, pageNumber, viewport);
    TextAllOfLines(hs, runs);
    TextFlatten(runs);
    RunsFlatten(items);
  }

  /** Each emitted line carries the text of its run. */
  lemma PageLinesTexts(pdfId: string, items: seq<TextItem>, pageNumber: int, viewport: Viewport)
    ensures var hs := PageLines(pdfId, items, pageNumber, viewport);
      && |hs| == |Runs(items)|
      && forall k :: 0 <= k < |hs| ==> hs[k].text == Text(Runs(items)[k])
  {
    PageLineNumbers(pdfId, items, pageNumber, viewport);
  }

  /** The runs laid end to end are the items. */
  lemma RunsFlatten(items: seq<TextItem>)
    ensures Flatten(Runs(items)) == items
  {
    RunsAreLineSplit(items);
  }

  /** A page's text as pdf.js delivers it. */
  datatype TextPage = TextPage(viewport: Viewport, items: seq<TextItem>)

  /** `getLines` over a document: page p (from 0) is grouped with page number
      p + 1. A page that pdf.js fails to deliver (None) aborts the whole
      document, which then yields no pages. */
  method GetLines(pdfId: string, pages: seq<Option<TextPage>>) returns (highlights: seq<seq<StoredHighlight>>)
    ensures (exists p :: 0 <= p < |pages| && pages[p].None?) ==> highlights == []
    ensures (forall p :: 0 <= p < |pages| ==> pages[p].Some?) ==>
      && |highlights| == |pages|
      && forall p :: 0 <= p < |pages| ==>
           highlights[p] == PageLines(pdfId, pages[p].value.items, p + 1, pages[p].value.viewport)
  {
    highlights := [];
    for p := 0 to |pages|
      invariant PagesGrouped(pdfId, pages, highlights, p)
    {
      if pages[p].None? {
        return [];
      }
      var page := pages[p].value;
      var lines := GroupLines(pdfId, page.items, p + 1, page.viewport);
      PagesGroupedStep(pdfId, pages, highlights, p, lines);
      highlights := highlights + [lines];
    }
  }

  /** Page q (from 0) was delivered and `lines` are its lines. */
  ghost predicate PageGrouped(pdfId: string, page: Option<TextPage>, q: int, lines: seq<StoredHighlight>)
  {
    page.Some? && lines == PageLines(pdfId, page.value.items, q + 1, page.value.viewport)
  }

  /** The first n pages were all delivered, and `highlights` holds their
      lines in page order. */
  ghost predicate PagesGrouped(pdfId: string, pages: seq<Option<TextPage>>, highlights: seq<seq<StoredHighlight>>, n: nat)
  {
    && n <= |pages|
    && |highlights| == n
    && (forall q :: 0 <= q < n ==> PageGrouped(pdfId, pages[q], q, highlights[q]))
  }

  /** Grouping one more delivered page extends the result by its lines. */
  lemma PagesGroupedStep(pdfId: string, pages: seq<Option<TextPage>>, highlights: seq<seq<StoredHighlight>>, p: nat,
                         lines: seq<StoredHighlight>)
    requires PagesGrouped(pdfId, pages, highlights, p)
    requires p < |pages| && pages[p].Some?
    requires lines == PageLines(pdfId, pages[p].value.items, p + 1, pages[p].value.viewport)
    ensures PagesGrouped(pdfId, pages, highlights + [lines], p + 1)
  {
    var hs := highlights + [lines];
    assert PageGrouped(pdfId, pages[p], p, hs[p]);
    forall q | 0 <= q < p ensures PageGrouped(pdfId, pages[q], q, hs[q]) {
      assert hs[q] == highlights[q];
    }
  }

  // ---------------------------------------------------------------------------
  // Image numbering (getImagesIndividual)
  // ---------------------------------------------------------------------------

  /** The six numbers of a `transform` operator. */
  datatype Transform = Transform(a: real, b: real, c: real, d: real, e: real, f: real)

  const Identity: Transform := Transform(1.0, 0.0, 0.0, 1.0, 0.0, 0.0)

  /** The operators of a page that the image scan looks at. A painted image
      carries what became of it: the data URL it was recorded with, or None
      when its object was missing or reading, drawing or encoding it threw
      (the error is logged and the scan goes on). */
  datatype Op = SetTransform(m: Transform) | PaintImage(outcome: Option<string>) | OtherOp

  /** A page as the image scan sees it: its viewport, the viewport's point
      conversion, and its operator list. */
  datatype ImagePage = ImagePage(viewport: Viewport, toViewport: (real, real) -> (real, real), ops: seq<Op>)

  /** The current transform after some operators: the last one set, the
      identity before any. */
  function TransformAfter(ops: seq<Op>): (m: Transform)
    ensures m == Identity || SetTransform(m) in ops
    decreases |ops|
  {
    if ops == [] then Identity
    else match Last(ops)
      case SetTransform(m) => m
      case _ => TransformAfter(ops[..|ops| - 1])
  }

  /** Each `transform` operator replaces the current matrix, so after the last
      one that sets `m`, the current transform is `m`. */
  lemma {:induction false} TransformAfterLastSet(ops: seq<Op>, i: int)
    requires 0 <= i < |ops| && ops[i].SetTransform?
    requires forall k :: i < k < |ops| ==> !ops[k].SetTransform?
    ensures TransformAfter(ops) == ops[i].m
    decreases |ops|
  {
    if i < |ops| - 1 {
      var init := ops[..|ops| - 1];
      assert forall k :: i < k < |init| ==> init[k] == ops[k];
      TransformAfterLastSet(init, i);
    }
  }

  /** The highlight of an image painted under transform `m`: placed at the
      converted translation, sized by the absolute scale factors. */
  function PlaceImage(pdfId: string, pageNumber: int, page: ImagePage, m: Transform, lineNumber: int, url: string): (h: StoredHighlight)
    ensures var pos := page.toViewport(m.e, m.f);
      && h.x1 == pos.0 && h.x2 == pos.0 + Abs(m.a)
      && h.y1 == pos.1 - Abs(m.d) && h.y2 == pos.1
    ensures h.lineNumber == Some(lineNumber) && h.pageNumber == pageNumber && h.text == ""
    ensures h.image == if url == "" then None else Some(url)
  {
    var pos := page.toViewport(m.e, m.f);
    ProcessImage(pdfId, pos.0, pos.1, Abs(m.a), Abs(m.d), pageNumber, lineNumber, page.viewport, "", Some(url))
  }

  /** The images a page scan records after some operators: each recorded
      image gets the next number of -1, -2, ... */
  function ImagesAfter(pdfId: string, pageNumber: int, page: ImagePage, ops: seq<Op>): (hs: seq<StoredHighlight>)
    ensures |hs| <= |ops|
    ensures forall k :: 0 <= k < |hs| ==> hs[k].pdfId == pdfId && hs[k].pageNumber == pageNumber
    decreases |ops|
  {
    if ops == [] then []
    else
      var init := ImagesAfter(pdfId, pageNumber, page, ops[..|ops| - 1]);
      match Last(ops)
        case PaintImage(Some(url)) =>
          init + [PlaceImage(pdfId, pageNumber, page, TransformAfter(ops[..|ops| - 1]), -(|init| + 1), url)]
        case _ => init
  }

  /** How many images of some operators were recorded. */
  function Recorded(ops: seq<Op>): nat
    decreases |ops|
  {
    if ops == [] then 0
    else Recorded(ops[..|ops| - 1]) + (if Last(ops).PaintImage? && Last(ops).outcome.Some? then 1 else 0)
  }

  /** One image per recorded paint, numbered -1, -2, ... in paint order, on
      the scanned page, with an empty text. */
  lemma {:induction false} ImagesNumbered(pdfId: string, pageNumber: int, page: ImagePage, ops: seq<Op>)
    ensures var hs := ImagesAfter(pdfId, pageNumber, page, ops);
      && |hs| == Recorded(ops)
      && forall k :: 0 <= k < |hs| ==>
           hs[k].lineNumber == Some(-(k + 1)) && hs[k].pageNumber == pageNumber && hs[k].text == ""
    decreases |ops|
  {
    if ops != [] {
      ImagesNumbered(pdfId, pageNumber, page, ops[..|ops| - 1]);
    }
  }

  /** The scan of one page's operator list. */
  method ScanImages(pdfId: string, pageNum: int, page: ImagePage) returns (highlights: seq<StoredHighlight>)
    ensures highlights == ImagesAfter(pdfId, pageNum, page, page.ops)
  {
    var ops := page.ops;
    var currentTransform := Identity;
    var lineNumber := -1;
    highlights := [];
    for i := 0 to |ops|
      invariant currentTransform == TransformAfter(ops[..i])
      invariant highlights == ImagesAfter(pdfId, pageNum, page, ops[..i])
      invariant lineNumber == -(|highlights| + 1)
    {
      assert ops[..i + 1][..i] == ops[..i];
      assert Last(ops[..i + 1]) == ops[i];
      match ops[i]
      case SetTransform(m) =>
        currentTransform := m;
      case PaintImage(outcome) =>
        if outcome.Some? {
          var pos := page.toViewport(currentTransform.e, currentTransform.f);
          highlights := highlights + [ProcessImage(pdfId, pos.0, pos.1, Abs(currentTransform.a), Abs(currentTransform.d),
                                                   pageNum, lineNumber, page.viewport, "", outcome)];
          lineNumber := lineNumber - 1;
        }
      case OtherOp =>
    }
    assert ops[..|ops|] == ops;
  }

  /** `getImagesIndividual` over a document: page p (from 0) is scanned with
      page number p + 1 and its own counter; a page whose operator list cannot
      be fetched (None) contributes no images and the scan goes on. */
  method GetImagesIndividual(pdfId: string, pages: seq<Option<ImagePage>>) returns (highlights: seq<seq<StoredHighlight>>)
    ensures |highlights| == |pages|
    ensures forall p :: 0 <= p < |pages| ==>
      highlights[p] == if pages[p].Some? then ImagesAfter(pdfId, p + 1, pages[p].value, pages[p].value.ops) else []
    ensures forall p, k :: 0 <= p < |pages| && 0 <= k < |highlights[p]| ==>
      highlights[p][k].lineNumber == Some(-(k + 1)) && highlights[p][k].pageNumber == p + 1
  {
    highlights := [];
    for p := 0 to |pages|
      invariant |highlights| == p
      invariant forall q :: 0 <= q < p ==>
        highlights[q] == if pages[q].Some? then ImagesAfter(pdfId, q + 1, pages[q].value, pages[q].value.ops) else []
      invariant forall q, k :: 0 <= q < p && 0 <= k < |highlights[q]| ==>
        highlights[q][k].lineNumber == Some(-(k + 1)) && highlights[q][k].pageNumber == q + 1
    {
      var images: seq<StoredHighlight> := [];
      if pages[p].Some? {
        images := ScanImages(pdfId, p + 1, pages[p].value);
        ImagesNumbered(pdfId, p + 1, pages[p].value, pages[p].value.ops);
      }
      highlights := highlights + [images];
    }
  }

  // ---------------------------------------------------------------------------
  // OCR confidence filter (tesseractRead)
  // ---------------------------------------------------------------------------

  /** OCR output below this page confidence is discarded. */
  const TesseractThreshold: real := 60.0

  datatype BBox = BBox(x0: real, y0: real, x1: real, y1: real)

  datatype OcrLine = OcrLine(text: string, bbox: BBox)

  /** What recognition returns for one page image: its confidence, whether a
      PDF was produced, and the recognised lines. */
  datatype OcrResult = OcrResult(confidence: real, hasPdf: bool, lines: seq<OcrLine>)

  /** The highlight of the j-th (from 0) OCR line of page `index` (from 0). */
  function OcrLineHighlight(pdfId: string, index: int, j: int, viewport: Viewport, line: OcrLine): (h: StoredHighlight)
    ensures var b := line.bbox;
      && h.x1 == b.x0 && h.x2 - h.x1 == Abs(b.x0 - b.x1)
      && h.y2 == b.y1 && h.y2 - h.y1 == Abs(b.y0 - b.y1)
    ensures h.lineNumber == Some(j + 1) && h.pageNumber == index + 1
    ensures h.text == line.text && h.image == None
  {
    var b := line.bbox;
    ProcessImage(pdfId, b.x0, b.y1, Abs(b.x0 - b.x1), Abs(b.y0 - b.y1), index + 1, j + 1, viewport, line.text, None)
  }

  /** The entry `tesseractRead` stores for page `index`: nothing when no PDF
      was produced, no lines below the confidence threshold, and otherwise one
      highlight per OCR line, numbered from 1 in order. */
  function OcrPage(pdfId: string, index: int, viewport: Viewport, res: OcrResult): (r: Option<seq<StoredHighlight>>)
    ensures r.None? <==> !res.hasPdf
    ensures r.Some? && res.confidence < TesseractThreshold ==> r.value == []
    ensures r.Some? && res.confidence >= TesseractThreshold ==>
      && |r.value| == |res.lines|
      && forall j :: 0 <= j < |r.value| ==>
           && r.value[j].lineNumber == Some(j + 1) && r.value[j].pageNumber == index + 1
           && r.value[j].text == res.lines[j].text && r.value[j].image == None
           && r.value[j] == OcrLineHighlight(pdfId, index, j, viewport, res.lines[j])
  {
    if !res.hasPdf then None
    else if res.confidence >= TesseractThreshold then
      Some(seq(|res.lines|, j requires 0 <= j < |res.lines| => OcrLineHighlight(pdfId, index, j, viewport, res.lines[j])))
    else Some([])
  }

  /** A well-formed OCR box (x0 <= x1, y0 <= y1) comes back unchanged. */
  lemma OcrBoxPreserved(pdfId: string, index: int, j: int, viewport: Viewport, line: OcrLine)
    requires line.bbox.x0 <= line.bbox.x1 && line.bbox.y0 <= line.bbox.y1
    ensures var h := OcrLineHighlight(pdfId, index, j, viewport, line);
      h.x1 == line.bbox.x0 && h.x2 == line.bbox.x1 && h.y1 == line.bbox.y0 && h.y2 == line.bbox.y1
  {
  }
}
