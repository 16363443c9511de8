/** AP sync: idempotent ingestion, the capped page loop, and cycles that interleave. */
module ApSync {
  import opened Wrappers
  import opened Money
  import opened Text
  import MonthChunks

  // ----- the invoice table -----

  datatype Key = Key(tenant: string, supplierTax: string, invoiceNumber: string)

  datatype Row = Row(tenant: string, input: IngestionInput)

  function KeyOf(r: Row): Key { Key(r.tenant, r.input.supplierTax, r.input.invoiceNumber) }

  /** Where storing a digest can fail: before the existence probe, in the transaction, or in the
      chain verification that runs after the commit. */
  datatype Fault = NoFault | BeforeProbe | OnInsert | AfterCommit

  /** A digest the service answers with, and what goes wrong when it is stored. */
  datatype Item = Item(digest: Digest, fault: Fault)

  /** A digest on its way into the table: what `DigestToInput` made of it, and what goes wrong. */
  datatype Delivery = Delivery(tenant: string, input: Result<IngestionInput, DigestError>, fault: Fault)

  function Deliver(tenant: string, item: Item): Delivery
  {
    Delivery(tenant, DigestToInput(item.digest), item.fault)
  }

  /** `validate_ingestion_input`. */
  predicate IsValidInput(i: IngestionInput)
  {
    && Trim(i.supplierTax) != "" && Trim(i.supplierName) != "" && Trim(i.invoiceNumber) != ""
    && MonthChunks.IsCanonicalDate(i.issueDate)
    && (i.currency == "HUF" || i.currency == "EUR")
  }

  /** `StoredUnverified` and `Rejected` both reach the cycle as an error. */
  datatype Outcome = Created | AlreadyExists | StoredUnverified | Rejected

  predicate Stored(o: Outcome) { o.Created? || o.StoredUnverified? }

  predicate HasKey(rows: seq<Row>, k: Key) { exists i :: 0 <= i < |rows| && KeyOf(rows[i]) == k }

  function NewRow(d: Delivery): Row
    requires d.input.Ok?
  {
    Row(d.tenant, d.input.value)
  }

  /** The delivery gets as far as the probe. */
  predicate Admitted(d: Delivery) { d.input.Ok? && IsValidInput(d.input.value) && !d.fault.BeforeProbe? }

  function OutcomeOf(rows: seq<Row>, d: Delivery): Outcome
  {
    if !Admitted(d) then Rejected
    else if HasKey(rows, KeyOf(NewRow(d))) then AlreadyExists
    else if d.fault.OnInsert? then Rejected
    else if d.fault.AfterCommit? then StoredUnverified
    else Created
  }

  function Ingest(rows: seq<Row>, d: Delivery): seq<Row>
  {
    if Stored(OutcomeOf(rows, d)) then rows + [NewRow(d)] else rows
  }

  function IngestAll(rows: seq<Row>, ds: seq<Delivery>): seq<Row>
  {
    if ds == [] then rows else Ingest(IngestAll(rows, ds[..|ds| - 1]), ds[|ds| - 1])
  }

  ghost predicate KeysUnique(rows: seq<Row>)
  {
    forall i, j :: 0 <= i < j < |rows| ==> KeyOf(rows[i]) != KeyOf(rows[j])
  }

  /** The delivery leaves its key in the table, whoever put it there. */
  predicate Lands(d: Delivery)
  {
    Admitted(d) && !d.fault.OnInsert?
  }

  lemma IngestStep(rows: seq<Row>, d: Delivery, k: Key)
    requires KeysUnique(rows)
    ensures KeysUnique(Ingest(rows, d)) && rows <= Ingest(rows, d)
    ensures HasKey(Ingest(rows, d), k) <==> HasKey(rows, k) || (Lands(d) && KeyOf(NewRow(d)) == k)
  {
    hide IsValidInput;
    var more := Ingest(rows, d);
    assert forall i :: 0 <= i < |rows| ==> more[i] == rows[i];
    if HasKey(rows, k) {
      var i :| 0 <= i < |rows| && KeyOf(rows[i]) == k;
      assert KeyOf(more[i]) == k;
    }
    if Stored(OutcomeOf(rows, d)) {
      assert KeyOf(more[|rows|]) == KeyOf(NewRow(d));
      assert !HasKey(rows, KeyOf(NewRow(d)));
    }
  }

  lemma {:induction false} KeysAfter(rows: seq<Row>, ds: seq<Delivery>, k: Key)
    requires KeysUnique(rows)
    ensures KeysUnique(IngestAll(rows, ds)) && rows <= IngestAll(rows, ds)
    ensures HasKey(IngestAll(rows, ds), k) <==>
      HasKey(rows, k) || exists i :: 0 <= i < |ds| && Lands(ds[i]) && KeyOf(NewRow(ds[i])) == k
  {
    hide Ingest, Lands, HasKey, KeyOf;
    if ds == [] {
    } else {
      var n := |ds| - 1;
      KeysAfter(rows, ds[..n], k);
      IngestStep(IngestAll(rows, ds[..n]), ds[n], k);
      assert ds == ds[..n] + [ds[n]];
      assert forall i :: 0 <= i < n ==> ds[..n][i] == ds[i];
    }
  }

  lemma KeyMeans(rows: seq<Row>, tenant: string, tax: string, number: string)
    ensures HasKey(rows, Key(tenant, tax, number)) <==>
      exists i :: 0 <= i < |rows| && rows[i].tenant == tenant
        && rows[i].input.supplierTax == tax && rows[i].input.invoiceNumber == number
  {
    if HasKey(rows, Key(tenant, tax, number)) {
      var i :| 0 <= i < |rows| && KeyOf(rows[i]) == Key(tenant, tax, number);
      assert rows[i].tenant == tenant;
    }
    if i :| 0 <= i < |rows|
            && rows[i].tenant == tenant && rows[i].input.supplierTax == tax && rows[i].input.invoiceNumber == number {
      assert KeyOf(rows[i]) == Key(tenant, tax, number);
    }
  }

  /** Which inputs pass validation: a tax number, a name and an invoice number that are not all
      whitespace, a date of the years 0 to 9999 as the calendar writes it, and one of two currencies. */
  lemma ValidInputs(i: IngestionInput)
    ensures IsValidInput(i) <==>
      && (exists k :: 0 <= k < |i.supplierTax| && !IsWhitespace(i.supplierTax[k]))
      && (exists k :: 0 <= k < |i.supplierName| && !IsWhitespace(i.supplierName[k]))
      && (exists k :: 0 <= k < |i.invoiceNumber| && !IsWhitespace(i.invoiceNumber[k]))
      && (exists d: MonthChunks.Date ::
            MonthChunks.InCalendar(d) && d.year >= 0 && MonthChunks.Format(d) == i.issueDate)
      && i.currency in {"HUF", "EUR"}
  {
    hide MonthChunks.IsCanonicalDate, MonthChunks.Format, MonthChunks.InCalendar, Trim, IsWhitespace;
    TrimBlank(i.supplierTax);
    TrimBlank(i.supplierName);
    TrimBlank(i.invoiceNumber);
    MonthChunks.CanonicalDates(i.issueDate);
  }

  /** A valid invoice that reaches the probe is a duplicate exactly when a stored row has its tenant,
      supplier tax number and invoice number; otherwise only the fault decides. */
  lemma StoredUnlessDuplicate(rows: seq<Row>, tenant: string, input: IngestionInput, fault: Fault)
    requires IsValidInput(input) && fault != BeforeProbe
    ensures var d := Delivery(tenant, Ok(input), fault);
      if exists i :: 0 <= i < |rows| && rows[i].tenant == tenant
           && rows[i].input.supplierTax == input.supplierTax && rows[i].input.invoiceNumber == input.invoiceNumber
      then OutcomeOf(rows, d) == AlreadyExists && Ingest(rows, d) == rows
      else if fault == OnInsert then OutcomeOf(rows, d) == Rejected && Ingest(rows, d) == rows
      else OutcomeOf(rows, d) == (if fault == NoFault then Created else StoredUnverified)
           && Ingest(rows, d) == rows + [Row(tenant, input)]
  {
    hide IsValidInput, HasKey;
    KeyMeans(rows, tenant, input.supplierTax, input.invoiceNumber);
  }

  /** However cycles over overlapping windows interleave: no two rows share tenant, supplier tax
      number and invoice number; such a triple is stored exactly when it was before or a valid
      delivery that got through carries it; and no stored row ever changes. */
  lemma TableAfter(rows: seq<Row>, ds: seq<Delivery>, tenant: string, tax: string, number: string)
    requires forall i, j :: 0 <= i < j < |rows| ==>
               rows[i].tenant != rows[j].tenant || rows[i].input.supplierTax != rows[j].input.supplierTax
               || rows[i].input.invoiceNumber != rows[j].input.invoiceNumber
    ensures var after := IngestAll(rows, ds);
      && rows <= after
      && (forall i, j :: 0 <= i < j < |after| ==>
            after[i].tenant != after[j].tenant || after[i].input.supplierTax != after[j].input.supplierTax
            || after[i].input.invoiceNumber != after[j].input.invoiceNumber)
      && ((exists i :: 0 <= i < |after| && after[i].tenant == tenant
             && after[i].input.supplierTax == tax && after[i].input.invoiceNumber == number) <==>
          || (exists i :: 0 <= i < |rows| && rows[i].tenant == tenant
                && rows[i].input.supplierTax == tax && rows[i].input.invoiceNumber == number)
          || (exists i :: 0 <= i < |ds| && ds[i].input.Ok? && IsValidInput(ds[i].input.value)
                && (ds[i].fault.NoFault? || ds[i].fault.AfterCommit?) && ds[i].tenant == tenant
                && ds[i].input.value.supplierTax == tax && ds[i].input.value.invoiceNumber == number))
  {
    hide IsValidInput, HasKey, IngestAll;
    var k, after := Key(tenant, tax, number), IngestAll(rows, ds);
    assert KeysUnique(rows);
    KeysAfter(rows, ds, k);
    KeyMeans(rows, tenant, tax, number);
    KeyMeans(after, tenant, tax, number);
    Unique(after);
    LandsWhen(ds, tenant, tax, number);
  }

  lemma Unique(rows: seq<Row>)
    ensures KeysUnique(rows) <==>
      forall i, j :: 0 <= i < j < |rows| ==>
        rows[i].tenant != rows[j].tenant || rows[i].input.supplierTax != rows[j].input.supplierTax
        || rows[i].input.invoiceNumber != rows[j].input.invoiceNumber
  {
  }

  lemma LandsWhen(ds: seq<Delivery>, tenant: string, tax: string, number: string)
    ensures (exists i :: 0 <= i < |ds| && Lands(ds[i]) && KeyOf(NewRow(ds[i])) == Key(tenant, tax, number)) <==>
      exists i :: 0 <= i < |ds| && ds[i].input.Ok? && IsValidInput(ds[i].input.value)
        && (ds[i].fault.NoFault? || ds[i].fault.AfterCommit?) && ds[i].tenant == tenant
        && ds[i].input.value.supplierTax == tax && ds[i].input.value.invoiceNumber == number
  {
    hide IsValidInput;
  }

  // ----- the page loop -----

  const MAX_PAGES_PER_CYCLE := 100

  /** What the invoice service answers for each page: an error, or digests and the number of the
      last page it then says there is. */
  datatype Service = Service(fails: nat -> bool, items: nat -> seq<Item>, available: nat -> nat)

  /** The cycle processed `pages` pages and then ended, with or without an error. */
  datatype Walk = Walk(pages: nat, complete: bool)

  /** The first `n` pages were answered, each with more behind it. */
  predicate Reached(nav: Service, n: nat)
  {
    forall p: nat :: 1 <= p <= n ==> !nav.fails(p) && nav.available(p) > p
  }

  /** Every page before the last one had more behind it. A complete walk ends at the last available
      page or at the cap, an incomplete one before the first page that fails. */
  predicate IsWalk(nav: Service, w: Walk)
  {
    && w.pages <= MAX_PAGES_PER_CYCLE
    && if w.complete
       then w.pages >= 1 && Reached(nav, w.pages - 1) && !nav.fails(w.pages)
            && (nav.available(w.pages) <= w.pages || w.pages == MAX_PAGES_PER_CYCLE)
       else w.pages < MAX_PAGES_PER_CYCLE && Reached(nav, w.pages) && nav.fails(w.pages + 1)
  }

  lemma WalkUnique(nav: Service, v: Walk, w: Walk)
    requires IsWalk(nav, v) && IsWalk(nav, w)
    ensures v == w
  {
  }

  function DeliverAll(tenant: string, items: seq<Item>): (ds: seq<Delivery>)
    ensures |ds| == |items| && forall k :: 0 <= k < |items| ==> ds[k] == Deliver(tenant, items[k])
  {
    seq(|items|, k requires 0 <= k < |items| => Deliver(tenant, items[k]))
  }

  /** What the first `n` pages deliver, in order. */
  function PagesDeliver(tenant: string, nav: Service, n: nat): seq<Delivery>
  {
    if n == 0 then [] else PagesDeliver(tenant, nav, n - 1) + DeliverAll(tenant, nav.items(n))
  }

  /** The pages 1 to `n`, once each, in order. */
  ghost predicate PagesInOrder(fetched: seq<nat>, n: nat)
  {
    |fetched| == n && forall k :: 0 <= k < n ==> fetched[k] == k + 1
  }

  /** The table and the counts of the cycle so far. */
  datatype Tally = Tally(rows: seq<Row>, ingested: nat, skipped: nat)

  function Tallied(t: Tally, d: Delivery): Tally
  {
    if OutcomeOf(t.rows, d).Created? then Tally(Ingest(t.rows, d), t.ingested + 1, t.skipped)
    else Tally(Ingest(t.rows, d), t.ingested, t.skipped + 1)
  }

  function TallyAll(t: Tally, ds: seq<Delivery>): Tally
  {
    if ds == [] then t else Tallied(TallyAll(t, ds[..|ds| - 1]), ds[|ds| - 1])
  }

  lemma {:induction false} TallyConcat(t: Tally, a: seq<Delivery>, b: seq<Delivery>)
    ensures TallyAll(t, a + b) == TallyAll(TallyAll(t, a), b)
  {
    if b == [] {
      assert a + b == a;
    } else {
      assert (a + b)[..|a + b| - 1] == a + b[..|b| - 1];
      TallyConcat(t, a, b[..|b| - 1]);
    }
  }

  lemma {:induction false} TallyCounts(t: Tally, ds: seq<Delivery>)
    ensures var r := TallyAll(t, ds);
      r.rows == IngestAll(t.rows, ds) && r.ingested + r.skipped == t.ingested + t.skipped + |ds|
  {
    if ds == [] {
    } else {
      TallyCounts(t, ds[..|ds| - 1]);
    }
  }

  function AfterPages(tenant: string, nav: Service, t: Tally, n: nat): Tally
  {
    if n == 0 then t else TallyAll(AfterPages(tenant, nav, t, n - 1), DeliverAll(tenant, nav.items(n)))
  }

  /** Page by page or all at once: the digests of the pages in order, each ingested once. */
  lemma {:induction false} PagesAreDigests(tenant: string, nav: Service, t: Tally, n: nat)
    ensures AfterPages(tenant, nav, t, n) == TallyAll(t, PagesDeliver(tenant, nav, n))
  {
    hide DeliverAll, Tallied;
    if n == 0 {
    } else {
      PagesAreDigests(tenant, nav, t, n - 1);
      TallyConcat(t, PagesDeliver(tenant, nav, n - 1), DeliverAll(tenant, nav.items(n)));
    }
  }

  /** How far a cycle got: the pages stored and the pages asked for. */
  datatype Progress = Progress(pages: nat, tally: Tally, fetched: seq<nat>)

  class Table {
    var rows: seq<Row>

    /** `ingest_incoming_invoice`: validate, probe, then insert. */
    method IngestOne(tenant: string, input: IngestionInput, fault: Fault) returns (o: Outcome)
      modifies this
      ensures var d := Delivery(tenant, Ok(input), fault);
        rows == Ingest(old(rows), d) && o == OutcomeOf(old(rows), d)
      ensures IsValidInput(input) && !fault.BeforeProbe? ==>
        (o.AlreadyExists? <==>
           exists i :: 0 <= i < |old(rows)| && old(rows)[i].tenant == tenant
             && old(rows)[i].input.supplierTax == input.supplierTax
             && old(rows)[i].input.invoiceNumber == input.invoiceNumber)
      ensures IsValidInput(input) && fault.NoFault? && !o.AlreadyExists? ==> rows == old(rows) + [Row(tenant, input)]
    {
      hide IsValidInput, HasKey;
      if !IsValidInput(input) || fault.BeforeProbe? { return Rejected; }
      StoredUnlessDuplicate(rows, tenant, input, fault);
      hide OutcomeOf, Ingest;
      var row := Row(tenant, input);
      var found := false;
      for i := 0 to |rows|
        invariant rows == old(rows)
        invariant found <==>
          exists j :: 0 <= j < i && rows[j].tenant == tenant
            && rows[j].input.supplierTax == input.supplierTax && rows[j].input.invoiceNumber == input.invoiceNumber
      {
        if rows[i].tenant == tenant && rows[i].input.supplierTax == input.supplierTax
           && rows[i].input.invoiceNumber == input.invoiceNumber {
          found := true;
        }
      }
      if found { return AlreadyExists; }
      if fault.OnInsert? { return Rejected; }
      rows := rows + [row];
      o := if fault.AfterCommit? then StoredUnverified else Created;
    }

    /** The digests of one page: convert each, store it, count it. */
    method IngestPage(tenant: string, items: seq<Item>, ghost t: Tally, ingested: nat, skipped: nat)
        returns (i: nat, s: nat)
      requires t == Tally(rows, ingested, skipped)
      modifies this
      ensures Tally(rows, i, s) == TallyAll(t, DeliverAll(tenant, items))
    {
      hide IsValidInput, DigestToInput, HasKey;
      i, s := ingested, skipped;
      ghost var ds := DeliverAll(tenant, items);
      for k := 0 to |items|
        invariant Tally(rows, i, s) == TallyAll(t, ds[..k])
      {
        assert ds[..k + 1][..k] == ds[..k] && ds[..k + 1][k] == ds[k];
        var input := DigestToInput(items[k].digest);
        var o := Rejected;
        if input.Ok? {
          o := IngestOne(tenant, input.value, items[k].fault);
        }
        if o.Created? {
          i := i + 1;
        } else {
          s := s + 1;
        }
      }
      assert ds[..|ds|] == ds;
    }

    /** `run_cycle_inner`. Pages 1, 2, … are fetched once each, in order; `done.pages` of them were
        answered and stored. */
    method RunCycle(tenant: string, nav: Service) returns (result: Result<(nat, nat, nat), ()>, ghost done: Progress)
      modifies this
      ensures IsWalk(nav, Walk(done.pages, result.Ok?))
      ensures done.tally == AfterPages(tenant, nav, Tally(old(rows), 0, 0), done.pages) && rows == done.tally.rows
      ensures result.Ok? ==> result.value == (done.tally.ingested, done.tally.skipped, done.pages)
      ensures PagesInOrder(done.fetched, if result.Ok? then done.pages else done.pages + 1)
    {
      hide TallyAll, DeliverAll;
      ghost var start := Tally(rows, 0, 0);
      var ingested, skipped, page := 0, 0, 1;
      ghost var fetched: seq<nat> := [];
      while true
        invariant 1 <= page <= MAX_PAGES_PER_CYCLE + 1
        invariant Reached(nav, page - 1)
        invariant Tally(rows, ingested, skipped) == AfterPages(tenant, nav, start, page - 1)
        invariant PagesInOrder(fetched, page - 1)
        decreases MAX_PAGES_PER_CYCLE + 1 - page
      {
        if page > MAX_PAGES_PER_CYCLE {
          return Ok((ingested, skipped, page - 1)), Progress(page - 1, Tally(rows, ingested, skipped), fetched);
        }
        fetched := fetched + [page];
        if nav.fails(page) {
          return Err(()), Progress(page - 1, Tally(rows, ingested, skipped), fetched);
        }
        ingested, skipped := IngestPage(tenant, nav.items(page), Tally(rows, ingested, skipped), ingested, skipped);
        if page >= nav.available(page) {
          return Ok((ingested, skipped, page)), Progress(page, Tally(rows, ingested, skipped), fetched);
        }
        page := page + 1;
      }
    }

    /** `run_one_cycle_for_window`: the counts of the summary. Ingested and skipped add up to the
        digests of the pages walked, unless the cycle failed: then it reports zeros. */
    method RunOneCycle(tenant: string, nav: Service)
        returns (ingested: nat, skipped: nat, pages: nat, failed: bool, ghost processed: nat)
      modifies this
      ensures IsWalk(nav, Walk(processed, !failed))
      ensures rows == IngestAll(old(rows), PagesDeliver(tenant, nav, processed))
      ensures failed ==> ingested == 0 && skipped == 0 && pages == 0
      ensures !failed ==> pages == processed && ingested + skipped == |PagesDeliver(tenant, nav, pages)|
      ensures !failed ==>
        Tally(rows, ingested, skipped) == TallyAll(Tally(old(rows), 0, 0), PagesDeliver(tenant, nav, pages))
    {
      var result;
      ghost var done;
      ghost var start := Tally(rows, 0, 0);
      result, done := RunCycle(tenant, nav);
      processed := done.pages;
      PagesAreDigests(tenant, nav, start, processed);
      TallyCounts(start, PagesDeliver(tenant, nav, processed));
      match result
      case Ok(t) => ingested, skipped, pages, failed := t.0, t.1, t.2, false;
      case Err(_) => ingested, skipped, pages, failed := 0, 0, 0, true;
    }
  }

  /** When the service keeps naming the same number of pages, exactly those are walked: at least
      one, at most a hundred. */
  lemma WalkConstant(nav: Service, available: nat, w: Walk)
    requires forall p: nat :: !nav.fails(p) && nav.available(p) == available
    ensures IsWalk(nav, w) <==>
      w == Walk(if available < 1 then 1 else if available > 100 then 100 else available, true)
  {
    assert !nav.fails(w.pages + 1);
    if w.pages > 1 {
      assert nav.available(w.pages - 1) == available;
    }
  }

  /** A cycle that fails midway reports nothing, though everything its earlier pages delivered is
      stored. */
  lemma AbortedCycleStillStores(tenant: string, nav: Service, w: Walk, rows: seq<Row>, d: Delivery)
    requires IsWalk(nav, w) && !w.complete && KeysUnique(rows)
    requires d in PagesDeliver(tenant, nav, w.pages) && Lands(d)
    ensures var after := IngestAll(rows, PagesDeliver(tenant, nav, w.pages));
      exists i :: 0 <= i < |after| && after[i].tenant == d.tenant
        && after[i].input.supplierTax == d.input.value.supplierTax
        && after[i].input.invoiceNumber == d.input.value.invoiceNumber
  {
    hide PagesDeliver, HasKey, KeysUnique, IngestAll, IsValidInput;
    var k, ds := KeyOf(NewRow(d)), PagesDeliver(tenant, nav, w.pages);
    KeysAfter(rows, ds, k);
    var i :| 0 <= i < |ds| && ds[i] == d;
    assert Lands(ds[i]) && KeyOf(NewRow(ds[i])) == k;
    KeyMeans(IngestAll(rows, ds), k.tenant, k.supplierTax, k.invoiceNumber);
  }

  // ----- interleaved cycles -----

  /** A cycle: its tenant, what the service answered it, and how far it got. */
  datatype Cycle = Cycle(tenant: string, nav: Service, walk: Walk)

  /** One digest stored by some running cycle. */
  datatype Event = Event(cycle: nat, delivery: Delivery)

  function Deliveries(es: seq<Event>): (ds: seq<Delivery>)
    ensures |ds| == |es| && forall i :: 0 <= i < |es| ==> ds[i] == es[i].delivery
  {
    seq(|es|, i requires 0 <= i < |es| => es[i].delivery)
  }

  /** The deliveries of one cycle, in order. */
  function Own(es: seq<Event>, c: nat): seq<Delivery>
  {
    if es == [] then []
    else
      var last := es[|es| - 1];
      Own(es[..|es| - 1], c) + if last.cycle == c then [last.delivery] else []
  }

  /** The events are those of these cycles, each walking its pages in order, interleaved in any way. */
  ghost predicate IsSchedule(es: seq<Event>, cycles: seq<Cycle>)
  {
    && (forall i :: 0 <= i < |es| ==> es[i].cycle < |cycles|)
    && forall c: nat :: c < |cycles| ==>
         IsWalk(cycles[c].nav, cycles[c].walk)
         && Own(es, c) == PagesDeliver(cycles[c].tenant, cycles[c].nav, cycles[c].walk.pages)
  }

  lemma DeliveriesAppend(es: seq<Event>, e: Event)
    ensures Deliveries(es + [e]) == Deliveries(es) + [e.delivery]
  {
  }

  /** The events for which `p` holds of cycle and outcome, ingested in order. */
  function Count(rows: seq<Row>, es: seq<Event>, p: (nat, Outcome) -> bool): nat
  {
    if es == [] then 0
    else
      var init, last := es[..|es| - 1], es[|es| - 1];
      Count(rows, init, p) + if p(last.cycle, OutcomeOf(IngestAll(rows, Deliveries(init)), last.delivery)) then 1 else 0
  }

  function CreatedBy(c: nat): (nat, Outcome) -> bool { (cycle, o: Outcome) => cycle == c && o.Created? }

  function SkippedBy(c: nat): (nat, Outcome) -> bool { (cycle, o: Outcome) => cycle == c && !o.Created? }

  /** What a cycle reports as ingested: its own count, or zero when it failed midway. */
  function Reported(rows: seq<Row>, es: seq<Event>, cycles: seq<Cycle>, c: nat): nat
    requires c < |cycles|
  {
    if cycles[c].walk.complete then Count(rows, es, CreatedBy(c)) else 0
  }

  function TotalReported(rows: seq<Row>, es: seq<Event>, cycles: seq<Cycle>, n: nat): nat
    requires n <= |cycles|
  {
    if n == 0 then 0 else TotalReported(rows, es, cycles, n - 1) + Reported(rows, es, cycles, n - 1)
  }

  function Growth(rows: seq<Row>, es: seq<Event>): int { |IngestAll(rows, Deliveries(es))| - |rows| }

  lemma IngestOneMore(rows: seq<Row>, es: seq<Event>)
    requires es != []
    ensures var init, last := es[..|es| - 1], es[|es| - 1];
      IngestAll(rows, Deliveries(es)) == Ingest(IngestAll(rows, Deliveries(init)), last.delivery)
  {
    hide Ingest;
    assert es == es[..|es| - 1] + [es[|es| - 1]];
    DeliveriesAppend(es[..|es| - 1], es[|es| - 1]);
    var ds := Deliveries(es);
    assert ds[..|ds| - 1] == Deliveries(es[..|es| - 1]);
  }

  lemma {:induction false} GrowthIsStored(rows: seq<Row>, es: seq<Event>)
    ensures Growth(rows, es) == Count(rows, es, (c, o) => Stored(o))
  {
    hide OutcomeOf, IngestAll;
    if es == [] {
      assert IngestAll(rows, Deliveries(es)) == rows by { NothingIngested(rows); }
    } else {
      GrowthIsStored(rows, es[..|es| - 1]);
      IngestOneMore(rows, es);
    }
  }

  lemma NothingIngested(rows: seq<Row>)
    ensures IngestAll(rows, Deliveries([])) == rows
  {
  }

  function CreatedBelow(n: nat): (nat, Outcome) -> bool { (cycle, o: Outcome) => cycle < n && o.Created? }

  lemma {:induction false} CountOneMore(rows: seq<Row>, es: seq<Event>, c: nat)
    ensures Count(rows, es, CreatedBelow(c + 1)) == Count(rows, es, CreatedBelow(c)) + Count(rows, es, CreatedBy(c))
  {
    hide OutcomeOf, IngestAll;
    if es == [] {
    } else {
      CountOneMore(rows, es[..|es| - 1], c);
    }
  }

  lemma {:induction false} NoneBelowZero(rows: seq<Row>, es: seq<Event>)
    ensures Count(rows, es, CreatedBelow(0)) == 0
  {
    hide OutcomeOf, IngestAll;
    if es == [] {
    } else {
      NoneBelowZero(rows, es[..|es| - 1]);
    }
  }

  lemma {:induction false} ReportedBelow(rows: seq<Row>, es: seq<Event>, cycles: seq<Cycle>, n: nat)
    requires n <= |cycles|
    ensures TotalReported(rows, es, cycles, n) <= Count(rows, es, CreatedBelow(n))
    ensures TotalReported(rows, es, cycles, n) == Count(rows, es, CreatedBelow(n)) <==>
      forall c :: 0 <= c < n && !cycles[c].walk.complete ==> Count(rows, es, CreatedBy(c)) == 0
  {
    hide Count;
    if n == 0 {
      NoneBelowZero(rows, es);
    } else {
      ReportedBelow(rows, es, cycles, n - 1);
      CountOneMore(rows, es, n - 1);
    }
  }

  lemma {:induction false} StoredSplits(rows: seq<Row>, es: seq<Event>, n: nat)
    requires forall i :: 0 <= i < |es| ==> es[i].cycle < n
    ensures Count(rows, es, (c, o) => Stored(o)) ==
      Count(rows, es, CreatedBelow(n)) + Count(rows, es, (c, o: Outcome) => o.StoredUnverified?)
  {
    hide OutcomeOf, IngestAll;
    if es == [] {
    } else {
      StoredSplits(rows, es[..|es| - 1], n);
    }
  }

  /** The table grows by at least what the cycles report. It grows by exactly that if and only if no
      cycle that failed had created rows, and no row was stored whose later verification failed. */
  lemma GrowthAgainstReports(rows: seq<Row>, es: seq<Event>, cycles: seq<Cycle>)
    requires IsSchedule(es, cycles)
    ensures var total := TotalReported(rows, es, cycles, |cycles|);
      && total <= Growth(rows, es)
      && (total == Growth(rows, es) <==>
            && (forall c :: 0 <= c < |cycles| && !cycles[c].walk.complete ==> Count(rows, es, CreatedBy(c)) == 0)
            && Count(rows, es, (c, o: Outcome) => o.StoredUnverified?) == 0)
  {
    hide Count, Growth, IsWalk, PagesDeliver;
    GrowthIsStored(rows, es);
    StoredSplits(rows, es, |cycles|);
    ReportedBelow(rows, es, cycles, |cycles|);
  }

  lemma {:induction false} OwnCounted(rows: seq<Row>, es: seq<Event>, c: nat)
    ensures Count(rows, es, CreatedBy(c)) + Count(rows, es, SkippedBy(c)) == |Own(es, c)|
  {
    hide OutcomeOf, IngestAll;
    if es == [] {
    } else {
      OwnCounted(rows, es[..|es| - 1], c);
    }
  }

  /** However the cycles interleave, what a complete one reports and what it skipped add up to the
      digests on the pages it walked. */
  lemma ReportsAddUp(rows: seq<Row>, es: seq<Event>, cycles: seq<Cycle>, c: nat)
    requires IsSchedule(es, cycles) && c < |cycles| && cycles[c].walk.complete
    ensures Reported(rows, es, cycles, c) + Count(rows, es, SkippedBy(c)) ==
      |PagesDeliver(cycles[c].tenant, cycles[c].nav, cycles[c].walk.pages)|
  {
    hide Count, PagesDeliver, IsWalk;
    OwnCounted(rows, es, c);
  }

  function Tagged(c: nat, ds: seq<Delivery>): (es: seq<Event>)
    ensures |es| == |ds| && forall i :: 0 <= i < |ds| ==> es[i] == Event(c, ds[i])
  {
    seq(|ds|, i requires 0 <= i < |ds| => Event(c, ds[i]))
  }

  lemma {:induction false} OthersNotCounted(rows: seq<Row>, es: seq<Event>, more: seq<Event>, c: nat)
    requires forall i :: 0 <= i < |more| ==> more[i].cycle != c
    ensures Count(rows, es + more, CreatedBy(c)) == Count(rows, es, CreatedBy(c))
  {
    hide OutcomeOf, IngestAll;
    if more == [] {
      assert es + more == es;
    } else {
      assert (es + more)[..|es + more| - 1] == es + more[..|more| - 1];
      OthersNotCounted(rows, es, more[..|more| - 1], c);
    }
  }

  lemma {:induction false} TallyIsCount(rows: seq<Row>, before: seq<Event>, c: nat, ds: seq<Delivery>)
    ensures var t, es := TallyAll(Tally(IngestAll(rows, Deliveries(before)), 0, 0), ds), before + Tagged(c, ds);
      && t.rows == IngestAll(rows, Deliveries(es))
      && Count(rows, es, CreatedBy(c)) == Count(rows, before, CreatedBy(c)) + t.ingested
  {
    hide OutcomeOf, IngestAll, Ingest;
    var es := before + Tagged(c, ds);
    if ds == [] {
      assert es == before;
    } else {
      var init := ds[..|ds| - 1];
      assert es[..|es| - 1] == before + Tagged(c, init);
      TallyIsCount(rows, before, c, init);
      IngestOneMore(rows, es);
    }
  }

  /** A cycle that is not interrupted reports the count its page loop tallied: what `RunOneCycle`
      returns as ingested on the table it started from. */
  lemma ReportIsTheTally(rows: seq<Row>, before: seq<Event>, after: seq<Event>, cycles: seq<Cycle>, c: nat)
    requires c < |cycles| && cycles[c].walk.complete
    requires forall i :: 0 <= i < |before| ==> before[i].cycle != c
    requires forall i :: 0 <= i < |after| ==> after[i].cycle != c
    ensures var ds := PagesDeliver(cycles[c].tenant, cycles[c].nav, cycles[c].walk.pages);
      Reported(rows, before + Tagged(c, ds) + after, cycles, c) ==
        TallyAll(Tally(IngestAll(rows, Deliveries(before)), 0, 0), ds).ingested
  {
    var ds := PagesDeliver(cycles[c].tenant, cycles[c].nav, cycles[c].walk.pages);
    assert Count(rows, [], CreatedBy(c)) == 0;
    hide Count, PagesDeliver, TallyAll, IngestAll;
    assert [] + before == before;
    OthersNotCounted(rows, [], before, c);
    TallyIsCount(rows, before, c, ds);
    OthersNotCounted(rows, before + Tagged(c, ds), after, c);
  }
}
