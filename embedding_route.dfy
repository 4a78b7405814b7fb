/** The batch ingestion route (app/api/index/embedding/route.ts): every unit of
    the request body goes to saveEmbeddings and, when it carries a highlight,
    to saveHighlight under the vec_id just returned. A failing unit is caught
    and the loop goes on. */
module EmbeddingRoute {
  import opened Types
  import opened VectorIndex
  import opened SqliteUtils

  /** What `req.json()` yields, as far as the route can tell: no JSON at
      all, `null` (reading its `length` throws), a value whose `length` is
      undefined (an object, a number, a boolean: the loop runs zero times),
      or an array of units. */
  datatype Body = NotJson | JsonNull | NoLength | Units(units: seq<UnitRequest>)

  /** One element of the request body. */
  datatype UnitRequest = UnitRequest(
    pdfId: string,
    embedding: seq<real>,
    pageNumber: int,
    lineNumber: int,
    storedHighlight: Option<StoredHighlight>)

  function UnitKeyOf(u: UnitRequest): UnitKey {
    UnitKey(u.pdfId, u.pageNumber, u.lineNumber)
  }

  /** What the loop has written so far, and whether some unit's catch block has
      run (which set the response to 500). */
  datatype Batch = Batch(index: VecIndex, highlights: map<int, HighlightRow>, failed: bool)

  /** saveEmbeddings throws for this unit in this state. */
  predicate UnitFails(b: Batch, u: UnitRequest) {
    b.index.Save(UnitKeyOf(u), u.embedding).1.Failure?
  }

  /** One iteration: save the embedding; on success save the highlight, if any,
      under the returned id; on failure skip the highlight and note it. */
  function Step(b: Batch, u: UnitRequest): (r: Batch)
    ensures r.failed == (b.failed || UnitFails(b, u))
    ensures UnitFails(b, u) ==> r.index == b.index && r.highlights == b.highlights
    ensures b.index.Valid() ==> r.index.Valid()
  {
    var (index, r) := b.index.Save(UnitKeyOf(u), u.embedding);
    if r.Failure? then b.(failed := true)
    else if u.storedHighlight.Some? then Batch(index, b.highlights[r.value := ToRow(u.storedHighlight.value)], b.failed)
    else Batch(index, b.highlights, b.failed)
  }

  /** The loop over the whole body, in array order. */
  function IngestAll(b: Batch, units: seq<UnitRequest>): (r: Batch)
    ensures b.failed ==> r.failed
    ensures b.index.Valid() ==> r.index.Valid()
    decreases |units|
  {
    if units == [] then b else Step(IngestAll(b, units[..|units| - 1]), units[|units| - 1])
  }

  /** The for loop of lines 10-19 against the store. */
  method IngestBatch(db: SQLiteDatabase, units: seq<UnitRequest>) returns (failed: bool)
    requires db.Valid()
    modifies db
    ensures db.Valid()
    ensures Batch(db.Index(), db.highlights, failed) == IngestAll(Batch(old(db.Index()), old(db.highlights), false), units)
    ensures db.pdfs == old(db.pdfs)
  {
    failed := false;
    ghost var start := Batch(old(db.Index()), old(db.highlights), false);
    for k := 0 to |units|
      invariant db.Valid()
      invariant db.pdfs == old(db.pdfs)
      invariant Batch(db.Index(), db.highlights, failed) == IngestAll(start, units[..k])
    {
      var u := units[k];
      ghost var mid := Batch(db.Index(), db.highlights, failed);
      var r := db.SaveEmbeddings(u.pdfId, u.embedding, u.pageNumber, u.lineNumber);
      assert UnitKey(u.pdfId, u.pageNumber, u.lineNumber) == UnitKeyOf(u);
      match r {
        case Failure(_) =>
          failed := true;
        case Success(vecId) =>
          if u.storedHighlight.Some? {
            db.SaveHighlight(vecId, u.storedHighlight.value);
          }
      }
      StepOf(mid, u, db.Index(), r, db.highlights, failed);
      IngestAllPrefix(start, units, k);
    }
    assert units[..|units|] == units;
  }

  /** The state after one iteration, described by what the two saves did, is
      the fold's next state. */
  lemma StepOf(mid: Batch, u: UnitRequest, index: VecIndex, r: Result<int>, highlights: map<int, HighlightRow>, failed: bool)
    requires (index, r) == mid.index.Save(UnitKeyOf(u), u.embedding)
    requires r.Failure? ==> index == mid.index && highlights == mid.highlights && failed
    requires r.Success? ==> failed == mid.failed
    requires r.Success? && u.storedHighlight.Some? ==> highlights == mid.highlights[r.value := ToRow(u.storedHighlight.value)]
    requires r.Success? && u.storedHighlight.None? ==> highlights == mid.highlights
    ensures Batch(index, highlights, failed) == Step(mid, u)
  {
  }

  /** The fold over one more unit. */
  lemma IngestAllPrefix(b: Batch, us: seq<UnitRequest>, k: nat)
    requires k < |us|
    ensures IngestAll(b, us[..k + 1]) == Step(IngestAll(b, us[..k]), us[k])
  {
    assert us[..k + 1][..k] == us[..k];
  }

  /** POST as written: a body that is not JSON, or is `null`, throws into the
      outer catch and gives 500; otherwise the loop runs and the response is
      then set to 200 whatever the units did, because line 20 overwrites the
      500 that line 17 set. */
  method Post(db: SQLiteDatabase, body: Body) returns (status: int)
    requires db.Valid()
    modifies db
    ensures db.Valid() && db.pdfs == old(db.pdfs)
    ensures status == 200 || status == 500
    ensures status == 500 <==> body.NotJson? || body.JsonNull?
    ensures !body.Units? ==> db.Index() == old(db.Index()) && db.highlights == old(db.highlights)
    ensures body.Units? ==>
              var after := IngestAll(Batch(old(db.Index()), old(db.highlights), false), body.units);
              db.Index() == after.index && db.highlights == after.highlights
  {
    match body {
      case NotJson =>
        status := 500;
      case JsonNull =>
        status := 500;
      case NoLength =>
        status := 200;
      case Units(units) =>
        // a failed unit set the response to 500 inside the loop (line 17) ...
        var failed := IngestBatch(db, units);
        // ... and line 20 replaces it unconditionally
        status := 200;
    }
  }

  /** POST with the status its catch block evidently means: 200 only when the
      body was read and every unit was saved. */
  method PostIntended(db: SQLiteDatabase, body: Body) returns (status: int)
    requires db.Valid()
    modifies db
    ensures db.Valid() && db.pdfs == old(db.pdfs)
    ensures status == 200 || status == 500
    ensures !body.Units? ==>
              && db.Index() == old(db.Index()) && db.highlights == old(db.highlights)
              && (status == 500 <==> body.NotJson? || body.JsonNull?)
    ensures body.Units? ==>
              var after := IngestAll(Batch(old(db.Index()), old(db.highlights), false), body.units);
              && db.Index() == after.index && db.highlights == after.highlights
              && (status == 200 <==> forall i :: 0 <= i < |body.units| ==> !FailsAt(Batch(old(db.Index()), old(db.highlights), false), body.units, i))
  {
    match body {
      case NotJson =>
        status := 500;
      case JsonNull =>
        status := 500;
      case NoLength =>
        status := 200;
      case Units(units) =>
        var failed := IngestBatch(db, units);
        IngestAllFailed(Batch(old(db.Index()), old(db.highlights), false), units);
        status := if failed then 500 else 200;
    }
  }

  /** Running a batch in two parts is running it whole. */
  lemma {:induction false} IngestAllAppend(b: Batch, xs: seq<UnitRequest>, ys: seq<UnitRequest>)
    ensures IngestAll(b, xs + ys) == IngestAll(IngestAll(b, xs), ys)
    decreases |ys|
  {
    if ys == [] {
      assert xs + ys == xs;
    } else {
      var init := ys[..|ys| - 1];
      IngestAllAppend(b, xs, init);
      assert (xs + ys)[..|xs + ys| - 1] == xs + init;
    }
  }

  /** A unit whose save throws only sets the failure flag: the units after it
      run exactly as if it had not been in the batch. */
  lemma FailedUnitIsolated(b: Batch, before: seq<UnitRequest>, u: UnitRequest, after: seq<UnitRequest>)
    requires UnitFails(IngestAll(b, before), u)
    ensures IngestAll(b, before + [u] + after) == IngestAll(IngestAll(b, before).(failed := true), after)
    ensures IngestAll(b, before + [u] + after).index == IngestAll(IngestAll(b, before), after).index
  {
    IngestAllAppend(b, before + [u], after);
    IngestAllAppend(b, before, [u]);
    assert [u][..0] == [];
    IngestAllIgnoresFlag(IngestAll(b, before), after);
  }

  /** The failure flag never steers the loop. */
  lemma {:induction false} IngestAllIgnoresFlag(b: Batch, us: seq<UnitRequest>)
    ensures IngestAll(b.(failed := true), us).index == IngestAll(b, us).index
    ensures IngestAll(b.(failed := true), us).highlights == IngestAll(b, us).highlights
    decreases |us|
  {
    if us != [] {
      var init := us[..|us| - 1];
      IngestAllIgnoresFlag(b, init);
      var mid := IngestAll(b, init);
      var mid' := IngestAll(b.(failed := true), init);
      assert mid' == mid.(failed := mid'.failed);
      StepIgnoresFlag(mid, us[|us| - 1], mid'.failed);
    }
  }

  /** One iteration writes the same whatever the flag. */
  lemma StepIgnoresFlag(b: Batch, u: UnitRequest, f: bool)
    ensures Step(b.(failed := f), u).index == Step(b, u).index
    ensures Step(b.(failed := f), u).highlights == Step(b, u).highlights
  {
  }

  /** After a batch: no key already registered is moved, every unit with an
      embedding of the declared width is registered, and every newly registered
      key belongs to such a unit. */
  lemma {:induction false} IngestAllRegisters(b: Batch, us: seq<UnitRequest>)
    ensures var after := IngestAll(b, us).index;
      && (forall k :: k in b.index.keys ==> k in after.keys && after.keys[k] == b.index.keys[k])
      && (forall i :: 0 <= i < |us| && |us[i].embedding| == EmbeddingDim ==> UnitKeyOf(us[i]) in after.keys)
      && (forall k :: k in after.keys ==>
            k in b.index.keys || exists i :: 0 <= i < |us| && UnitKeyOf(us[i]) == k && |us[i].embedding| == EmbeddingDim)
    decreases |us|
  {
    if us != [] {
      var init := us[..|us| - 1];
      var last := us[|us| - 1];
      IngestAllRegisters(b, init);
      var mid := IngestAll(b, init).index;
      var after := IngestAll(b, us).index;
      assert IngestAll(b, us) == Step(IngestAll(b, init), last);
      StepRegisters(IngestAll(b, init), last);
      forall i | 0 <= i < |us| && |us[i].embedding| == EmbeddingDim ensures UnitKeyOf(us[i]) in after.keys {
        if i < |init| {
          assert init[i] == us[i];
        }
      }
      forall k | k in after.keys
        ensures k in b.index.keys || exists i :: 0 <= i < |us| && UnitKeyOf(us[i]) == k && |us[i].embedding| == EmbeddingDim
      {
        if k in mid.keys {
          if k !in b.index.keys {
            var i :| 0 <= i < |init| && UnitKeyOf(init[i]) == k && |init[i].embedding| == EmbeddingDim;
            assert us[i] == init[i];
          }
        } else {
          assert UnitKeyOf(us[|us| - 1]) == k;
        }
      }
    }
  }

  /** One iteration moves no registered key, registers its unit when the width
      is right, and registers nothing else. */
  lemma StepRegisters(b: Batch, u: UnitRequest)
    ensures var after := Step(b, u).index;
      && (forall k :: k in b.index.keys ==> k in after.keys && after.keys[k] == b.index.keys[k])
      && (|u.embedding| == EmbeddingDim ==> UnitKeyOf(u) in after.keys)
      && (forall k :: k in after.keys ==> k in b.index.keys || (k == UnitKeyOf(u) && |u.embedding| == EmbeddingDim))
  {
  }

  /** A unit's highlight is stored under the id registered for its key, and
      stays there through later units unless a later unit of the same key
      brings its own highlight. */
  lemma {:induction false} HighlightSurvives(b: Batch, us: seq<UnitRequest>, i: nat, n: nat)
    requires b.index.Valid()
    requires i < n <= |us|
    requires us[i].storedHighlight.Some?
    requires !FailsAt(b, us, i)
    requires forall j :: i < j < n && UnitKeyOf(us[j]) == UnitKeyOf(us[i]) ==> us[j].storedHighlight.None?
    ensures var after := IngestAll(b, us[..n]);
      && UnitKeyOf(us[i]) in after.index.keys
      && after.index.keys[UnitKeyOf(us[i])] in after.highlights
      && after.highlights[after.index.keys[UnitKeyOf(us[i])]] == ToRow(us[i].storedHighlight.value)
    decreases n
  {
    var mid := IngestAll(b, us[..n - 1]);
    assert us[..n][..n - 1] == us[..n - 1];
    assert IngestAll(b, us[..n]) == Step(mid, us[n - 1]);
    if n == i + 1 {
      StepStoresHighlight(mid, us[i]);
    } else {
      HighlightSurvives(b, us, i, n - 1);
      StepKeepsHighlight(mid, us[n - 1], UnitKeyOf(us[i]), ToRow(us[i].storedHighlight.value));
    }
  }

  /** A unit whose save succeeds stores its highlight under its key's id. */
  lemma StepStoresHighlight(b: Batch, u: UnitRequest)
    requires !UnitFails(b, u) && u.storedHighlight.Some?
    ensures var after := Step(b, u);
      && UnitKeyOf(u) in after.index.keys
      && after.index.keys[UnitKeyOf(u)] in after.highlights
      && after.highlights[after.index.keys[UnitKeyOf(u)]] == ToRow(u.storedHighlight.value)
  {
    var (index, r) := b.index.Save(UnitKeyOf(u), u.embedding);
    assert r.Success? && index.keys[UnitKeyOf(u)] == r.value;
  }

  /** A unit that brings no highlight for `key` leaves the highlight stored
      under `key`'s id where it is. */
  lemma StepKeepsHighlight(b: Batch, u: UnitRequest, key: UnitKey, row: HighlightRow)
    requires b.index.Valid()
    requires key in b.index.keys && b.index.keys[key] in b.highlights && b.highlights[b.index.keys[key]] == row
    requires UnitKeyOf(u) == key ==> u.storedHighlight.None?
    ensures var after := Step(b, u);
      && key in after.index.keys
      && after.index.keys[key] in after.highlights
      && after.highlights[after.index.keys[key]] == row
  {
    var (index, r) := b.index.Save(UnitKeyOf(u), u.embedding);
    var id := b.index.keys[key];
    assert index.keys[key] == id;
    if r.Success? && UnitKeyOf(u) != key {
      assert index.Valid();
      assert index.keys[UnitKeyOf(u)] != index.keys[key];
    }
  }

  /** Unit i's save throws in the state the units before it left. */
  predicate FailsAt(b: Batch, us: seq<UnitRequest>, i: nat)
    requires i < |us|
  {
    UnitFails(IngestAll(b, us[..i]), us[i])
  }

  /** The flag a batch ends with is set exactly when some unit's save threw in
      the state the units before it left. */
  lemma {:induction false} IngestAllFailed(b: Batch, us: seq<UnitRequest>)
    ensures IngestAll(b, us).failed <==> b.failed || exists i :: 0 <= i < |us| && FailsAt(b, us, i)
    decreases |us|
  {
    if us != [] {
      var init := us[..|us| - 1];
      var last := us[|us| - 1];
      IngestAllFailed(b, init);
      assert IngestAll(b, us) == Step(IngestAll(b, init), last);
      forall i | 0 <= i < |init| ensures FailsAt(b, init, i) == FailsAt(b, us, i) {
        FailsAtPrefix(b, us, i);
      }
      assert FailsAt(b, us, |us| - 1) == UnitFails(IngestAll(b, init), last);
      if IngestAll(b, us).failed && !b.failed {
        if IngestAll(b, init).failed {
          var i :| 0 <= i < |init| && FailsAt(b, init, i);
          assert FailsAt(b, us, i);
        } else {
          assert FailsAt(b, us, |us| - 1);
        }
      }
    }
  }

  /** Whether unit i throws depends only on the units before it. */
  lemma FailsAtPrefix(b: Batch, us: seq<UnitRequest>, i: nat)
    requires i < |us| - 1
    ensures FailsAt(b, us[..|us| - 1], i) == FailsAt(b, us, i)
  {
    assert us[..|us| - 1][..i] == us[..i];
  }

  /** A batch of one unit with an empty embedding: its save throws, yet POST as
      written answers 200 for it. */
  lemma StatusHidesFailure()
    ensures var u := UnitRequest("doc", [], 1, 1, None);
            IngestAll(Batch(EmptyIndex(), map[], false), [u]).failed
  {
    var u := UnitRequest("doc", [], 1, 1, None);
    assert [u][..0] == [];
  }
}
