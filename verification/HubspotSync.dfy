/** HubSpot synchronisation: splitting work into chunks, batching associations, and mapping ids. */
module HubspotSync {
  import opened Prelude

  function Flatten<T>(xss: seq<seq<T>>): seq<T> {
    if xss == [] then [] else xss[0] + Flatten(xss[1..])
  }

  lemma {:induction false} FlattenAppend<T>(xss: seq<seq<T>>, xs: seq<T>)
    ensures Flatten(xss + [xs]) == Flatten(xss) + xs
  {
    if xss == [] {
      assert xss + [xs] == [xs];
      assert Flatten([xs]) == xs + Flatten([xs][1..]) == xs + [];
    } else {
      assert (xss + [xs])[1..] == xss[1..] + [xs];
      FlattenAppend(xss[1..], xs);
    }
  }

  // ----------------------------------------------------------------------------------------
  // Chunks
  // ----------------------------------------------------------------------------------------

  /** The ids in consecutive chunks of at most the given size. */
  function Chunks<T>(ids: seq<T>, size: nat): seq<seq<T>>
    requires size > 0
    decreases |ids|
  {
    if ids == [] then []
    else if |ids| <= size then [ids]
    else [ids[..size]] + Chunks(ids[size..], size)
  }

  function Ceil(n: nat, d: nat): nat
    requires d > 0
  {
    (n + d - 1) / d
  }

  /** max_concurrent_chunk_size, for a positive limit on concurrent tasks. */
  function ChunkSize(count: nat, tasks: nat): nat
    requires tasks > 0
  {
    Ceil(count, tasks)
  }

  /** batched_chunks: a short list, even an empty one, is a single chunk. */
  function BatchedChunks<T>(isContacts: bool, ids: seq<T>): seq<seq<T>> {
    var size := if isContacts then 10 else 100;
    if |ids| <= size then [ids] else Chunks(ids, size)
  }

  lemma {:induction false} ChunksSpec<T>(ids: seq<T>, size: nat)
    requires size > 0
    ensures Flatten(Chunks(ids, size)) == ids
    ensures forall i :: 0 <= i < |Chunks(ids, size)| ==> 0 < |Chunks(ids, size)[i]| <= size
    decreases |ids|
  {
    if |ids| > size {
      ChunksSpec(ids[size..], size);
      assert Chunks(ids, size)[1..] == Chunks(ids[size..], size);
      assert ids == ids[..size] + ids[size..];
    } else if ids != [] {
      assert Flatten([ids]) == ids + Flatten([ids][1..]);
    }
  }

  /** All chunks but the last are full. */
  lemma {:induction false} ChunksFull<T>(ids: seq<T>, size: nat)
    requires size > 0
    ensures forall i :: 0 <= i < |Chunks(ids, size)| - 1 ==> |Chunks(ids, size)[i]| == size
    decreases |ids|
  {
    if |ids| > size {
      ChunksFull(ids[size..], size);
      var rest := Chunks(ids[size..], size);
      forall i | 0 <= i < |Chunks(ids, size)| - 1 ensures |Chunks(ids, size)[i]| == size {
        assert i > 0 ==> Chunks(ids, size)[i] == rest[i - 1];
      }
    }
  }

  /** A batch request never exceeds its limit, all but the last are full, and the batches are the ids in order. */
  lemma BatchedChunksSpec<T>(isContacts: bool, ids: seq<T>)
    ensures Flatten(BatchedChunks(isContacts, ids)) == ids
    ensures forall i :: 0 <= i < |BatchedChunks(isContacts, ids)| ==>
              |BatchedChunks(isContacts, ids)[i]| <= (if isContacts then 10 else 100)
    ensures forall i :: 0 <= i < |BatchedChunks(isContacts, ids)| - 1 ==>
              |BatchedChunks(isContacts, ids)[i]| == (if isContacts then 10 else 100)
  {
    var size := if isContacts then 10 else 100;
    ChunksSpec(ids, size);
    ChunksFull(ids, size);
    if |ids| <= size {
      assert Flatten([ids]) == ids + Flatten([ids][1..]);
    }
  }

  lemma {:induction false} ChunksWithin<T>(ids: seq<T>, size: nat, tasks: nat)
    requires size > 0 && |ids| <= tasks * size
    ensures |Chunks(ids, size)| <= tasks
    decreases tasks
  {
    if |ids| > size {
      assert tasks > 0;
      assert |ids[size..]| <= (tasks - 1) * size;
      ChunksWithin(ids[size..], size, tasks - 1);
    } else if ids != [] {
      assert tasks > 0;
    }
  }

  /**
   * The computed chunk size is the least that does with the concurrent tasks there are: there are never
   * more chunks than tasks, and with one less per chunk the tasks would not suffice. It is zero only
   * for no ids.
   */
  lemma ConcurrencyBounded<T>(ids: seq<T>, tasks: nat)
    requires tasks > 0
    ensures ChunkSize(|ids|, tasks) == 0 <==> ids == []
    ensures ids != [] ==> |Chunks(ids, ChunkSize(|ids|, tasks))| <= tasks
    ensures ids != [] ==> tasks * (ChunkSize(|ids|, tasks) - 1) < |ids|
  {
    var size := ChunkSize(|ids|, tasks);
    var top := |ids| + tasks - 1;
    assert top == tasks * size + top % tasks;
    if ids == [] {
      assert top / tasks == 0;
    } else {
      assert |ids| <= tasks * size;
      ChunksWithin(ids, size, tasks);
    }
  }

  // ----------------------------------------------------------------------------------------
  // Associations
  // ----------------------------------------------------------------------------------------

  datatype Association = Association(source: string, target: string)

  /** What gathering one order's associations yields before it ends, in the given way. */
  datatype Gathered = Gathered(contact: Option<Association>, lines: seq<Association>, rateLimited: bool)

  /** The API's reply to one batch: anything but acceptance or a plain API error ends the run. */
  datatype Reply = Accepted | ApiError | Raises

  function ContactOf(order: Gathered): seq<Association> {
    if order.contact.Some? then [order.contact.value] else []
  }

  function Contacts(orders: seq<Gathered>): seq<Association> {
    if orders == [] then [] else Contacts(orders[..|orders| - 1]) + ContactOf(orders[|orders| - 1])
  }

  function Lines(orders: seq<Gathered>): seq<Association> {
    if orders == [] then [] else Lines(orders[..|orders| - 1]) + orders[|orders| - 1].lines
  }

  ghost predicate NoneEmpty(batches: seq<seq<Association>>) {
    forall i :: 0 <= i < |batches| ==> batches[i] != []
  }

  ghost predicate AtMost100(batches: seq<seq<Association>>) {
    forall i :: 0 <= i < |batches| ==> |batches[i]| <= 100
  }

  /** The submitted batches and the batch being filled hold what was gathered, in order. */
  ghost predicate Batched(batches: seq<seq<Association>>, batch: seq<Association>, gathered: seq<Association>) {
    NoneEmpty(batches) && Flatten(batches) + batch == gathered
  }

  lemma GatherMore(batches: seq<seq<Association>>, batch: seq<Association>, gathered: seq<Association>,
                   more: seq<Association>)
    requires Batched(batches, batch, gathered)
    ensures Batched(batches, batch + more, gathered + more)
  {
    assert Flatten(batches) + (batch + more) == (Flatten(batches) + batch) + more;
  }

  /** The lines of one order join the batch being filled one at a time. */
  method GatherLines(batch: seq<Association>, lines: seq<Association>) returns (filled: seq<Association>)
    ensures filled == batch + lines
  {
    filled := batch;
    for j := 0 to |lines|
      invariant filled == batch + lines[..j]
    {
      filled := filled + [lines[j]];
    }
  }

  /** One batch request, made only if there is something to send; `ended` if its failure is not caught. */
  method SubmitBatch(batches: seq<seq<Association>>, batch: seq<Association>, ghost gathered: seq<Association>,
                     reply: Reply)
    returns (submitted: seq<seq<Association>>, ended: bool)
    requires Batched(batches, batch, gathered)
    ensures Batched(submitted, [], gathered)
    ensures AtMost100(batches) && |batch| <= 100 ==> AtMost100(submitted)
    ensures |submitted| == |batches| + if batch == [] then 0 else 1
    ensures ended <==> batch != [] && reply == Raises
  {
    if batch == [] {
      return batches, false;
    }
    FlattenAppend(batches, batch);
    return batches + [batch], reply == Raises;
  }

  /** What has been submitted so far: batches that are not empty and hold part of what was gathered, in order. */
  ghost predicate Submitted(batches: seq<seq<Association>>, gathered: seq<Association>) {
    NoneEmpty(batches) && Flatten(batches) <= gathered
  }

  ghost predicate OneLineEach(orders: seq<Gathered>) {
    forall i :: 0 <= i < |orders| ==> |orders[i].lines| <= 1
  }

  lemma PrefixContacts(orders: seq<Gathered>, n: nat)
    requires n < |orders|
    ensures Contacts(orders[..n + 1]) == Contacts(orders[..n]) + ContactOf(orders[n])
    ensures Lines(orders[..n + 1]) == Lines(orders[..n]) + orders[n].lines
  {
    assert orders[..n + 1][..n] == orders[..n];
  }

  lemma {:induction false} PrefixOfAll(orders: seq<Gathered>, n: nat)
    requires n <= |orders|
    ensures Contacts(orders[..n]) <= Contacts(orders) && Lines(orders[..n]) <= Lines(orders)
    decreases |orders| - n
  {
    if n == |orders| {
      assert orders[..n] == orders;
    } else {
      PrefixContacts(orders, n);
      PrefixOfAll(orders, n + 1);
    }
  }

  /** How many associations the first n orders give. */
  ghost function CountGathered(orders: seq<Gathered>, n: nat): nat
    requires n <= |orders|
  {
    |Contacts(orders[..n])| + |Lines(orders[..n])|
  }

  lemma CountStep(orders: seq<Gathered>, i: nat)
    requires i < |orders|
    ensures CountGathered(orders, i + 1) == CountGathered(orders, i) + |ContactOf(orders[i])| + |orders[i].lines|
    ensures CountGathered(orders, i + 1) <= CountGathered(orders, |orders|)
  {
    PrefixContacts(orders, i);
    PrefixOfAll(orders, i + 1);
    assert orders[..|orders|] == orders;
  }

  /** The batches submitted so far, and the two being filled. */
  datatype Outbox = Outbox(
    contactBatches: seq<seq<Association>>, contactBatch: seq<Association>,
    lineBatches: seq<seq<Association>>, lineBatch: seq<Association>)

  /** The outbox holds what the first i orders gave, in order, in batches that are not too large. */
  ghost predicate Holds(orders: seq<Gathered>, i: nat, o: Outbox)
    requires i <= |orders|
  {
    && Batched(o.contactBatches, o.contactBatch, Contacts(orders[..i]))
    && Batched(o.lineBatches, o.lineBatch, Lines(orders[..i]))
    && AtMost100(o.contactBatches) && |o.contactBatch| <= 100
    && (OneLineEach(orders) ==> AtMost100(o.lineBatches) && |o.lineBatch| <= 100)
  }

  /** Each round so far was made for at least 100 associations; what is being filled comes on top. */
  ghost predicate IsPaced(orders: seq<Gathered>, i: nat, rounds: nat, o: Outbox)
    requires i <= |orders|
  {
    && |o.contactBatches| <= rounds && |o.lineBatches| <= rounds
    && 100 * rounds + |o.contactBatch| + |o.lineBatch| <= CountGathered(orders, i)
  }

  predicate IsFull(o: Outbox) {
    |o.contactBatch| == 100 || |o.lineBatch| == 100
  }

  /** Neither batch being filled has reached the limit, the lines' if orders have one line each. */
  ghost predicate HasRoom(orders: seq<Gathered>, o: Outbox) {
    |o.contactBatch| < 100 && (OneLineEach(orders) ==> |o.lineBatch| < 100)
  }

  /** One more order gathered. */
  lemma GatherOrder(orders: seq<Gathered>, i: nat, rounds: nat, o: Outbox)
    requires i < |orders| && Holds(orders, i, o) && IsPaced(orders, i, rounds, o) && HasRoom(orders, o)
    ensures var next := o.(contactBatch := o.contactBatch + ContactOf(orders[i]),
                           lineBatch := o.lineBatch + orders[i].lines);
            Holds(orders, i + 1, next) && IsPaced(orders, i + 1, rounds, next)
  {
    PrefixContacts(orders, i);
    CountStep(orders, i);
    GatherMore(o.contactBatches, o.contactBatch, Contacts(orders[..i]), ContactOf(orders[i]));
    GatherMore(o.lineBatches, o.lineBatch, Lines(orders[..i]), orders[i].lines);
  }

  /** What the outbox has submitted is part of what all the orders give. */
  lemma HeldIsSubmitted(orders: seq<Gathered>, i: nat, o: Outbox)
    requires i <= |orders| && Holds(orders, i, o)
    ensures Submitted(o.contactBatches, Contacts(orders)) && Submitted(o.lineBatches, Lines(orders))
  {
    PrefixOfAll(orders, i);
    assert Flatten(o.contactBatches) <= Contacts(orders[..i]) && Flatten(o.lineBatches) <= Lines(orders[..i]);
  }

  /** One round of requests: the lines first, then the contacts unless the lines' failure ended it. */
  method SubmitRound(ghost orders: seq<Gathered>, ghost i: nat, o: Outbox, first: Reply, second: Reply)
    returns (next: Outbox, ended: bool)
    requires i <= |orders| && Holds(orders, i, o)
    ensures Holds(orders, i, next)
    ensures !ended ==> next.contactBatch == [] && next.lineBatch == []
    ensures |next.contactBatches| <= |o.contactBatches| + 1 && |next.lineBatches| <= |o.lineBatches| + 1
    ensures ended <==> (o.lineBatch != [] && first == Raises) || (o.contactBatch != [] && second == Raises)
  {
    var lines, contacts: seq<seq<Association>>;
    lines, ended := SubmitBatch(o.lineBatches, o.lineBatch, Lines(orders[..i]), first);
    next := o.(lineBatches := lines, lineBatch := []);
    if !ended {
      contacts, ended := SubmitBatch(o.contactBatches, o.contactBatch, Contacts(orders[..i]), second);
      next := next.(contactBatches := contacts, contactBatch := []);
    }
  }

  ghost predicate IsBounded(orders: seq<Gathered>, o: Outbox) {
    && 100 * (|o.contactBatches| - 1) <= CountGathered(orders, |orders|)
    && 100 * (|o.lineBatches| - 1) <= CountGathered(orders, |orders|)
  }

  /** The outbox before order i; after the last order nothing is waiting. */
  ghost predicate IsReady(orders: seq<Gathered>, i: nat, rounds: nat, o: Outbox)
    requires i <= |orders|
  {
    && Holds(orders, i, o) && HasRoom(orders, o) && IsBounded(orders, o)
    && (i < |orders| ==> IsPaced(orders, i, rounds, o))
    && (i == |orders| ==> o.contactBatch == [] && o.lineBatch == [])
  }

  /** One turn of the loop: gather an order's associations, and submit if a batch is full or it is the last. */
  method TakeOrder(orders: seq<Gathered>, i: nat, ghost rounds: nat, o: Outbox, first: Reply, second: Reply)
    returns (next: Outbox, ghost count: nat, ended: bool)
    requires i < |orders| && IsReady(orders, i, rounds, o)
    ensures Holds(orders, i + 1, next) && IsBounded(orders, next)
    ensures !ended ==> IsReady(orders, i + 1, count, next) && !orders[i].rateLimited
    ensures ended ==> orders[i].rateLimited || first == Raises || second == Raises
  {
    GatherOrder(orders, i, rounds, o);
    CountStep(orders, i);
    var lineBatch := GatherLines(o.lineBatch, orders[i].lines);
    next := o.(contactBatch := o.contactBatch + ContactOf(orders[i]), lineBatch := lineBatch);
    count := rounds;
    if orders[i].rateLimited {
      return next, count, true;
    }
    if IsFull(next) || i == |orders| - 1 {
      count := rounds + 1;
      next, ended := SubmitRound(orders, i + 1, next, first, second);
    } else {
      ended := false;
    }
  }

  /**
   * batch_upsert_associations_chunked. The submitted batches hold the gathered associations in
   * order, none lost or repeated, unless it is ended early, and then a prefix of them. No batch is
   * empty, no contact batch exceeds 100, nor does a line batch if orders have one line each. And every
   * round of requests but the last is made for no fewer than 100 associations.
   */
  method UpsertAssociations(orders: seq<Gathered>, replies: nat -> Reply)
    returns (contactBatches: seq<seq<Association>>, lineBatches: seq<seq<Association>>, ended: bool)
    ensures Submitted(contactBatches, Contacts(orders)) && Submitted(lineBatches, Lines(orders))
    ensures !ended ==> Flatten(contactBatches) == Contacts(orders) && Flatten(lineBatches) == Lines(orders)
    ensures AtMost100(contactBatches) && (OneLineEach(orders) ==> AtMost100(lineBatches))
    ensures 100 * (|contactBatches| - 1) <= CountGathered(orders, |orders|)
    ensures 100 * (|lineBatches| - 1) <= CountGathered(orders, |orders|)
    ensures !ended ==> forall i :: 0 <= i < |orders| ==> !orders[i].rateLimited
    ensures ended ==> (exists i :: 0 <= i < |orders| && orders[i].rateLimited)
                      || (exists r: nat :: replies(r) == Raises)
  {
    var o := Outbox([], [], [], []);
    ghost var rounds: nat := 0;
    for i := 0 to |orders|
      invariant IsReady(orders, i, rounds, o)
      invariant forall j :: 0 <= j < i ==> !orders[j].rateLimited
    {
      o, rounds, ended := TakeOrder(orders, i, rounds, o, replies(2 * i), replies(2 * i + 1));
      if ended {
        HeldIsSubmitted(orders, i + 1, o);
        return o.contactBatches, o.lineBatches, true;
      }
    }
    HeldIsSubmitted(orders, |orders|, o);
    assert orders[..|orders|] == orders;
    return o.contactBatches, o.lineBatches, false;
  }

  // ----------------------------------------------------------------------------------------
  // The id map
  // ----------------------------------------------------------------------------------------

  /** The (object id, HubSpot id) rows of one content type. */
  type IdRows = set<(nat, string)>

  /** The table's unique constraints: one HubSpot id for each object and one object for each HubSpot id. */
  ghost predicate OneToOne(rows: IdRows) {
    forall a, b :: a in rows && b in rows && (a.0 == b.0 || a.1 == b.1) ==> a == b
  }

  predicate IsMapped(rows: IdRows, objectId: nat) {
    exists row :: row in rows && row.0 == objectId
  }

  predicate IsTaken(rows: IdRows, hubspotId: string) {
    exists row :: row in rows && row.1 == hubspotId
  }

  function MappedObjects(rows: IdRows): set<nat> {
    set row | row in rows :: row.0
  }

  /** The HubSpot id belongs to another object. */
  predicate IsTakenByOther(rows: IdRows, objectId: nat, hubspotId: string) {
    exists row :: row in rows && row.1 == hubspotId && row.0 != objectId
  }

  /** update_or_create with both ids as the lookup: an insert that a unique constraint may refuse. */
  function AddMapping(rows: IdRows, objectId: nat, hubspotId: string): IdRows {
    if (objectId, hubspotId) in rows || IsMapped(rows, objectId) || IsTaken(rows, hubspotId) then rows
    else rows + {(objectId, hubspotId)}
  }

  /** One contact of sync_contact_hubspot_ids_to_db: remap the user unless another user has the id. */
  function MapContact(rows: IdRows, user: nat, hubspotId: string): IdRows {
    if IsTakenByOther(rows, user, hubspotId) then rows
    else (set row | row in rows && row.0 != user) + {(user, hubspotId)}
  }

  lemma AddMappingSpec(rows: IdRows, objectId: nat, hubspotId: string)
    requires OneToOne(rows)
    ensures var next := AddMapping(rows, objectId, hubspotId);
            && OneToOne(next) && rows <= next
            && ((objectId, hubspotId) in next <==>
                  (objectId, hubspotId) in rows || (!IsMapped(rows, objectId) && !IsTaken(rows, hubspotId)))
  {
  }

  lemma MapContactSpec(rows: IdRows, user: nat, hubspotId: string)
    requires OneToOne(rows)
    ensures var next := MapContact(rows, user, hubspotId);
            && OneToOne(next)
            && (if IsTakenByOther(rows, user, hubspotId) then next == rows
                else (user, hubspotId) in next && MappedObjects(next) == MappedObjects(rows) + {user})
            && (forall row: (nat, string) :: row.0 != user ==> (row in next <==> row in rows))
  {
    var next := MapContact(rows, user, hubspotId);
    if !IsTakenByOther(rows, user, hubspotId) {
      assert (user, hubspotId) in next;
      forall u ensures u in MappedObjects(next) <==> u in MappedObjects(rows) + {user} {
        if u in MappedObjects(rows) && u != user {
          var row :| row in rows && row.0 == u;
          assert row in next;
        }
      }
    }
  }

  /** One-to-one rows are as many as the objects they map. */
  lemma {:induction false} RowsCountObjects(rows: IdRows)
    requires OneToOne(rows)
    ensures |rows| == |MappedObjects(rows)|
    decreases |rows|
  {
    if rows == {} {
      assert MappedObjects(rows) == {};
    } else {
      var row :| row in rows;
      RowsCountObjects(rows - {row});
      assert MappedObjects(rows) == MappedObjects(rows - {row}) + {row.0};
    }
  }

  /** A contact with the user its email addresses resolve to, if any. */
  datatype Contact = Contact(user: Option<nat>, hubspotId: string)

  /** An object in a batch-create response with the id it resolves to, if any. */
  datatype Created = Created(objectId: Option<nat>, hubspotId: string)

  // ----------------------------------------------------------------------------------------
  // Mapping a batch-create response
  // ----------------------------------------------------------------------------------------

  function RecordOne(rows: IdRows, result: Created): IdRows {
    if result.objectId.Some? then AddMapping(rows, result.objectId.value, result.hubspotId) else rows
  }

  function RecordAll(rows: IdRows, results: seq<Created>): IdRows {
    if results == [] then rows else RecordOne(RecordAll(rows, results[..|results| - 1]), results[|results| - 1])
  }

  predicate IsRecorded(rows: IdRows, result: Created) {
    result.objectId.Some? && (result.objectId.value, result.hubspotId) in rows
  }

  /** The object has another HubSpot id, or the HubSpot id another object. */
  predicate IsRefused(rows: IdRows, result: Created) {
    && result.objectId.Some? && (result.objectId.value, result.hubspotId) !in rows
    && (IsMapped(rows, result.objectId.value) || IsTaken(rows, result.hubspotId))
  }

  /** The HubSpot ids of the results that the rows map as reported, in order. */
  function RecordedIds(rows: IdRows, results: seq<Created>): seq<string> {
    if results == [] then []
    else
      var last := results[|results| - 1];
      RecordedIds(rows, results[..|results| - 1]) + if IsRecorded(rows, last) then [last.hubspotId] else []
  }

  /** A refused mapping is refused for good: the rows it conflicts with stay. */
  lemma RefusedStays(rows: IdRows, next: IdRows, result: Created)
    requires OneToOne(next) && rows <= next && IsRefused(rows, result)
    ensures IsRefused(next, result)
  {
    if IsMapped(rows, result.objectId.value) {
      var row :| row in rows && row.0 == result.objectId.value;
      assert row in next;
    } else {
      var row :| row in rows && row.1 == result.hubspotId;
      assert row in next;
    }
  }

  /** The map stays one-to-one and only grows, by reported pairs; a result is recorded or conflicts. */
  lemma {:induction false} RecordAllSpec(rows: IdRows, results: seq<Created>)
    requires OneToOne(rows)
    ensures var next := RecordAll(rows, results);
            && OneToOne(next) && rows <= next
            && (forall row :: row in next && row !in rows ==> Created(Some(row.0), row.1) in results)
            && (forall r :: r in results && r.objectId.Some? ==> IsRecorded(next, r) || IsRefused(next, r))
  {
    if results != [] {
      var init, last := results[..|results| - 1], results[|results| - 1];
      RecordAllSpec(rows, init);
      var before := RecordAll(rows, init);
      if last.objectId.Some? {
        AddMappingSpec(before, last.objectId.value, last.hubspotId);
      }
      var next := RecordOne(before, last);
      assert results == init + [last];
      forall r | r in results && r.objectId.Some? ensures IsRecorded(next, r) || IsRefused(next, r) {
        if r in init && IsRefused(before, r) {
          RefusedStays(before, next, r);
        }
      }
    }
  }

  /** What was reported of earlier results stays right when later ones are recorded. */
  lemma {:induction false} RecordedIdsStay(rows: IdRows, next: IdRows, results: seq<Created>)
    requires OneToOne(next) && rows <= next
    requires forall r :: r in results && r.objectId.Some? ==> IsRecorded(rows, r) || IsRefused(rows, r)
    ensures RecordedIds(next, results) == RecordedIds(rows, results)
  {
    if results != [] {
      var last := results[|results| - 1];
      RecordedIdsStay(rows, next, results[..|results| - 1]);
      assert last in results;
      if IsRefused(rows, last) {
        RefusedStays(rows, next, last);
      }
    }
  }

  // ----------------------------------------------------------------------------------------
  // Mapping contacts to users
  // ----------------------------------------------------------------------------------------

  function MapContacts(rows: IdRows, contacts: seq<Contact>): IdRows {
    if contacts == [] then rows
    else
      var before := MapContacts(rows, contacts[..|contacts| - 1]);
      var last := contacts[|contacts| - 1];
      if last.user.Some? then MapContact(before, last.user.value, last.hubspotId) else before
  }

  /** The map stays one-to-one, every mapped user stays mapped, and new rows pair a contact with its user. */
  lemma {:induction false} MapContactsSpec(rows: IdRows, contacts: seq<Contact>)
    requires OneToOne(rows)
    ensures var next := MapContacts(rows, contacts);
            && OneToOne(next) && MappedObjects(rows) <= MappedObjects(next)
            && (forall row :: row in next && row !in rows ==> Contact(Some(row.0), row.1) in contacts)
  {
    if contacts != [] {
      var init, last := contacts[..|contacts| - 1], contacts[|contacts| - 1];
      MapContactsSpec(rows, init);
      if last.user.Some? {
        MapContactSpec(MapContacts(rows, init), last.user.value, last.hubspotId);
      }
      assert contacts == init + [last];
    }
  }

  /**
   * A contact whose user is known ends with that user mapped, unless the contact's id belonged to
   * another user when it was its turn. The last contact of a user whose id was free decides the
   * user's id, as long as no later contact is the user's.
   */
  lemma {:induction false} MapContactsTakes(rows: IdRows, contacts: seq<Contact>, i: nat)
    requires OneToOne(rows) && i < |contacts| && contacts[i].user.Some?
    ensures var user, id := contacts[i].user.value, contacts[i].hubspotId;
            !IsTakenByOther(MapContacts(rows, contacts[..i]), user, id) ==>
              && IsMapped(MapContacts(rows, contacts), user)
              && ((forall j :: i < j < |contacts| ==> contacts[j].user != Some(user)) ==>
                    (user, id) in MapContacts(rows, contacts))
    decreases |contacts|
  {
    var init, last := contacts[..|contacts| - 1], contacts[|contacts| - 1];
    var user, id := contacts[i].user.value, contacts[i].hubspotId;
    MapContactsSpec(rows, init);
    var before := MapContacts(rows, init);
    if last.user.Some? {
      MapContactSpec(before, last.user.value, last.hubspotId);
    }
    if i == |contacts| - 1 {
      assert contacts[..i] == init;
    } else {
      assert init[..i] == contacts[..i];
      MapContactsTakes(rows, init, i);
      if !IsTakenByOther(MapContacts(rows, contacts[..i]), user, id) {
        assert user in MappedObjects(before);
        assert user in MappedObjects(MapContacts(rows, contacts));
      }
    }
  }

  class IdTable {
    var rows: IdRows

    ghost predicate Valid()
      reads this
    {
      OneToOne(rows)
    }

    constructor ()
      ensures Valid() && rows == {}
    {
      rows := {};
    }

    /** The mapping loop of batch_create_hubspot_objects_chunked: it reports the ids it has mapped. */
    method RecordCreated(results: seq<Created>) returns (createdIds: seq<string>)
      requires Valid()
      modifies this
      ensures Valid()
      ensures rows == RecordAll(old(rows), results)
      ensures createdIds == RecordedIds(rows, results)
    {
      createdIds := [];
      for i := 0 to |results|
        invariant rows == RecordAll(old(rows), results[..i])
        invariant createdIds == RecordedIds(rows, results[..i])
      {
        var result := results[i];
        assert results[..i + 1][..i] == results[..i];
        RecordAllSpec(old(rows), results[..i]);
        RecordAllSpec(old(rows), results[..i + 1]);
        RecordedIdsStay(rows, RecordAll(old(rows), results[..i + 1]), results[..i]);
        if result.objectId.Some? {
          rows := AddMapping(rows, result.objectId.value, result.hubspotId);
          if (result.objectId.value, result.hubspotId) in rows {
            createdIds := createdIds + [result.hubspotId];
          }
        }
      }
      assert results[..|results|] == results;
      RecordAllSpec(old(rows), results);
    }

    /** sync_contact_hubspot_ids_to_db: True exactly when every user ends up mapped. */
    method SyncContacts(contacts: seq<Contact>, users: set<nat>) returns (complete: bool)
      requires Valid()
      requires MappedObjects(rows) <= users
      requires forall i :: 0 <= i < |contacts| && contacts[i].user.Some? ==> contacts[i].user.value in users
      modifies this
      ensures Valid() && rows == MapContacts(old(rows), contacts)
      ensures complete <==> forall u :: u in users ==> IsMapped(rows, u)
    {
      for i := 0 to |contacts|
        invariant rows == MapContacts(old(rows), contacts[..i])
      {
        assert contacts[..i + 1][..i] == contacts[..i];
        if contacts[i].user.Some? {
          rows := MapContact(rows, contacts[i].user.value, contacts[i].hubspotId);
        }
      }
      assert contacts[..|contacts|] == contacts;
      MapContactsSpec(old(rows), contacts);
      assert MappedObjects(rows) <= users;
      RowsCountObjects(rows);
      SubsetSameSize(MappedObjects(rows), users);
      SubsetSize(MappedObjects(rows), users);
      complete := |users| == |rows|;
      assert forall u :: IsMapped(rows, u) <==> u in MappedObjects(rows);
    }

    /** get_hubspot_id_for_object: the mapped id, or else the found one, which is recorded if it is free. */
    method IdForObject(objectId: nat, found: Option<string>) returns (id: Option<string>)
      requires Valid()
      modifies this
      ensures Valid() && old(rows) <= rows
      ensures if IsMapped(old(rows), objectId) then rows == old(rows) && id.Some? && (objectId, id.value) in rows
              else
                id == found
                && rows == if found.Some? then AddMapping(old(rows), objectId, found.value) else old(rows)
    {
      if IsMapped(rows, objectId) {
        var row :| row in rows && row.0 == objectId;
        return Some(row.1);
      }
      if found.Some? {
        AddMappingSpec(rows, objectId, found.value);
        rows := AddMapping(rows, objectId, found.value);
      }
      return found;
    }
  }
}
