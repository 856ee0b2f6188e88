/** Admission of an untrusted batch reply: src/intentumdiff/rust_core.py.
  *
  * A reply is a decoded JSON object.  Each field is modelled by the cases the
  * admission code tells apart; what it copies without looking is an opaque
  * body of type B.
  */
module BatchAdmission {
  import opened Common

  const COMPLETE := "complete"
  const CANDIDATE := "candidate"
  const PARTIAL := "partial"
  const FALLBACK := "fallback"
  const BATCH_ENGINE := "rust_core_batch_v4"
  const OWNER := "rust"
  const CONTRACT := "rust_finalized_v1"

  /** A JSON value that should be a string. */
  datatype Tag = NotText | Text(text: string)

  /** A change kind; an unhashable value makes the table lookup raise. */
  datatype Kind = Unhashable | OtherKind | Named(name: string)

  datatype Index = NoIndex | NotAnInteger | At(value: int)

  /** A metadata entry: missing, an explicit null, a string, or anything else. */
  datatype Label = Absent | Null | Is(text: string) | Alien

  datatype Change =
    | NotAChange
    | Change(kind: Kind, hasOld: bool, hasNew: bool)

  datatype Metadata = Metadata(owner: Label, contract: Label, coreReadable: bool)

  /** The `diff` entry of an item; `validates` is the DTO model's own verdict. */
  datatype Payload<B> =
    | NoPayload
    | NotADiff
    | Dto(changes: Option<seq<Change>>, groups: bool, parseErrors: bool, guardrails: bool,
          semanticFlag: bool, styleFlag: bool, fallbackFlag: bool,
          metadata: Option<Metadata>, validates: bool, body: B)

  datatype Item<B> =
    | NotAnItem
    | Item(index: Index, status: Tag, reason: string, diff: Payload<B>)

  datatype Reply<B> = Reply(engine: string, status: Tag, items: Option<seq<Item<B>>>, metadataReadable: bool)

  /** What happened before a reply could be validated. */
  datatype Outcome<B> =
    | Declined(why: string)
    | Broken(why: string)
    | Answered(reply: Reply<B>)

  datatype Certified<B> = Certified(body: B, owner: Label, contract: Label)

  datatype Attempt<B> =
    Attempt(diffs: map<int, Certified<B>>, reasons: map<int, string>, reason: string, invalid: bool)

  /* ----- What the code demands, stated without its loops. ----- */

  predicate EnvelopeKnown(t: Tag) {
    t == Text(COMPLETE) || t == Text(CANDIDATE) || t == Text(PARTIAL) || t == Text(FALLBACK)
  }

  predicate ItemKnown(t: Tag) {
    t == Text(COMPLETE) || t == Text(CANDIDATE) || t == Text(FALLBACK)
  }

  predicate Agree(envelope: Tag, item: Tag) {
    && (envelope == Text(COMPLETE) ==> item == Text(COMPLETE))
    && (envelope == Text(FALLBACK) ==> item == Text(FALLBACK))
  }

  predicate NeedsOld(k: Kind) {
    k == Named("DELETION") || k == Named("MODIFICATION") || k == Named("MOVE") || k == Named("REORDER")
  }

  predicate NeedsNew(k: Kind) {
    k == Named("ADDITION") || k == Named("MODIFICATION") || k == Named("MOVE") || k == Named("REORDER")
  }

  predicate Anchored(c: Change) {
    && c.Change?
    && c.kind != Unhashable
    && (NeedsOld(c.kind) ==> c.hasOld)
    && (NeedsNew(c.kind) ==> c.hasNew)
  }

  predicate CompleteDto<B>(d: Payload<B>) {
    && d.Dto?
    && d.changes.Some? && d.groups && d.parseErrors && d.guardrails
    && (forall k :: 0 <= k < |d.changes.value| ==> Anchored(d.changes.value[k]))
    && d.semanticFlag && d.styleFlag && d.fallbackFlag
    && d.metadata.Some?
    && d.validates
  }

  /** The owner check lets an explicit null through, as well as a missing entry. */
  predicate OwnerAllowed(m: Metadata) {
    m.owner == Absent || m.owner == Null || m.owner == Is(OWNER)
  }

  predicate Certifiable<B>(d: Payload<B>) {
    && CompleteDto(d)
    && d.metadata.value.coreReadable
    && OwnerAllowed(d.metadata.value)
  }

  predicate IsComplete<B>(item: Item<B>) {
    item.Item? && item.status == Text(COMPLETE)
  }

  predicate Placed<B>(item: Item<B>, n: nat) {
    item.Item? && item.index.At? && 0 <= item.index.value < n
  }

  predicate ItemShape<B>(envelope: Tag, item: Item<B>, n: nat) {
    && Placed(item, n)
    && ItemKnown(item.status)
    && Agree(envelope, item.status)
    && (IsComplete(item) ==> CompleteDto(item.diff))
  }

  predicate ItemAdmissible<B>(envelope: Tag, item: Item<B>, n: nat) {
    ItemShape(envelope, item, n) && (IsComplete(item) ==> Certifiable(item.diff))
  }

  predicate Distinct<B>(items: seq<Item<B>>) {
    forall j, k :: 0 <= j < k < |items| && items[j].Item? && items[k].Item? ==> items[j].index != items[k].index
  }

  predicate Admissible<B>(r: Reply<B>, n: nat) {
    && r.engine == BATCH_ENGINE
    && EnvelopeKnown(r.status)
    && r.items.Some?
    && |r.items.value| == n
    && r.metadataReadable
    && (forall k :: 0 <= k < n ==> ItemAdmissible(r.status, r.items.value[k], n))
    && Distinct(r.items.value)
  }

  /** `setdefault` on a metadata entry: only a missing entry is filled in. */
  function Defaulted(l: Label, text: string): Label {
    if l == Absent then Is(text) else l
  }

  function Certify<B>(d: Payload<B>): Certified<B>
    requires d.Dto? && d.metadata.Some?
  {
    Certified(d.body, Defaulted(d.metadata.value.owner, OWNER), Defaulted(d.metadata.value.contract, CONTRACT))
  }

  /** `reason or status` */
  function ReasonText(reason: string, status: string): string {
    if reason != "" then reason else status
  }

  function ReasonOf<B>(item: Item<B>): string
    requires item.Item? && item.status.Text?
  {
    ReasonText(item.reason, item.status.text)
  }

  predicate Readable<B>(item: Item<B>) {
    && item.Item? && item.index.At? && item.status.Text?
    && (IsComplete(item) ==> item.diff.Dto? && item.diff.metadata.Some?)
  }

  predicate AllReadable<B>(items: seq<Item<B>>) {
    forall k :: 0 <= k < |items| ==> Readable(items[k])
  }

  /** The complete items, in reply order. */
  function Completed<B>(items: seq<Item<B>>): seq<Item<B>> {
    if items == [] then []
    else
      var last := items[|items| - 1];
      var before := Completed(items[..|items| - 1]);
      if IsComplete(last) then before + [last] else before
  }

  /** The certified diffs a list of items carries, by request index. */
  function DiffsOf<B>(items: seq<Item<B>>): map<int, Certified<B>>
    requires AllReadable(items)
  {
    if items == [] then map[]
    else
      var last := items[|items| - 1];
      var before := DiffsOf(items[..|items| - 1]);
      if IsComplete(last) then before[last.index.value := Certify(last.diff)] else before
  }

  /** The declines a list of items carries, by request index. */
  function ReasonsOf<B>(items: seq<Item<B>>): map<int, string>
    requires AllReadable(items)
  {
    if items == [] then map[]
    else
      var last := items[|items| - 1];
      var before := ReasonsOf(items[..|items| - 1]);
      if IsComplete(last) then before else before[last.index.value := ReasonOf(last)]
  }

  /* ----- The checkers and the batch call, as the code runs them. ----- */

  /** _require_source_anchored_changes */
  method RequireAnchored(changes: Option<seq<Change>>) returns (ok: bool)
    ensures ok <==> changes.Some? && forall k :: 0 <= k < |changes.value| ==> Anchored(changes.value[k])
  {
    if changes.None? {
      return false;
    }
    var i := 0;
    while i < |changes.value|
      invariant 0 <= i <= |changes.value|
      invariant forall k :: 0 <= k < i ==> Anchored(changes.value[k])
    {
      var c := changes.value[i];
      if c.NotAChange? || c.kind == Unhashable || (NeedsOld(c.kind) && !c.hasOld) || (NeedsNew(c.kind) && !c.hasNew) {
        assert !Anchored(changes.value[i]);
        return false;
      }
      i := i + 1;
    }
    return true;
  }

  /** _require_complete_batch_diff_dto followed by the DTO model. */
  method RequireComplete<B>(d: Payload<B>) returns (ok: bool)
    ensures ok <==> CompleteDto(d)
  {
    if !d.Dto? || d.changes.None? || !d.groups || !d.parseErrors || !d.guardrails {
      return false;
    }
    ok := RequireAnchored(d.changes);
    ok := ok && d.semanticFlag && d.styleFlag && d.fallbackFlag && d.metadata.Some? && d.validates;
  }

  function Rejected<B>(why: string): Attempt<B> {
    Attempt(map[], map[], why, true)
  }

  /** One item of the validation loop: everything but the repeated index. */
  method CheckItem<B>(envelope: Tag, item: Item<B>, n: nat, seen: set<int>) returns (ok: bool)
    ensures ok <==> ItemShape(envelope, item, n) && item.index.value !in seen
  {
    if item.NotAnItem? || !item.index.At? || !(0 <= item.index.value < n) || item.index.value in seen {
      return false;
    }
    if !ItemKnown(item.status) || !Agree(envelope, item.status) {
      return false;
    }
    if item.status == Text(COMPLETE) {
      ok := RequireComplete(item.diff);
      return ok;
    }
    return true;
  }

  predicate ShapedAndDistinct<B>(envelope: Tag, items: seq<Item<B>>, n: nat) {
    (forall k :: 0 <= k < |items| ==> ItemShape(envelope, items[k], n)) && Distinct(items)
  }

  /** The request indices named by the first k items. */
  function Seen<B>(items: seq<Item<B>>, k: nat): set<int>
    requires k <= |items| && AllReadable(items[..k])
  {
    if k == 0 then {} else
      assert items[..k][..k - 1] == items[..k - 1];
      assert Readable(items[..k][k - 1]);
      Seen(items, k - 1) + {items[k - 1].index.value}
  }

  lemma {:induction false} SeenWhere<B>(items: seq<Item<B>>, k: nat, x: int) returns (j: nat)
    requires k <= |items| && AllReadable(items[..k])
    requires x in Seen(items, k)
    ensures j < k && items[j].Item? && items[j].index == At(x)
  {
    if x == items[k - 1].index.value {
      assert Readable(items[..k][k - 1]);
      j := k - 1;
    } else {
      assert items[..k][..k - 1] == items[..k - 1];
      j := SeenWhere(items, k - 1, x);
    }
  }

  lemma {:induction false} SeenHas<B>(items: seq<Item<B>>, k: nat, j: nat)
    requires j < k <= |items| && AllReadable(items[..k])
    ensures items[j].Item? && items[j].index.At? && items[j].index.value in Seen(items, k)
  {
    assert Readable(items[..k][k - 1]);
    if j < k - 1 {
      assert items[..k][..k - 1] == items[..k - 1];
      SeenHas(items, k - 1, j);
    }
  }

  /** One item accepted: the prefix grows by a shaped item with a fresh index. */
  lemma PrefixGrows<B>(envelope: Tag, items: seq<Item<B>>, n: nat, i: nat)
    requires i < |items| && AllReadable(items[..i])
    requires ShapedAndDistinct(envelope, items[..i], n)
    requires ItemShape(envelope, items[i], n) && items[i].index.value !in Seen(items, i)
    ensures ShapedAndDistinct(envelope, items[..i + 1], n) && AllReadable(items[..i + 1])
  {
    var p := items[..i + 1];
    assert forall k :: 0 <= k < i ==> p[k] == items[..i][k];
    forall j, k | 0 <= j < k < |p| ensures p[j].index != p[k].index {
      if k == i {
        SeenHas(items, i, j);
      }
    }
  }

  /** One item refused: the whole list is out. */
  lemma PrefixFails<B>(envelope: Tag, items: seq<Item<B>>, n: nat, i: nat)
    requires i < |items| && AllReadable(items[..i])
    requires !(ItemShape(envelope, items[i], n) && items[i].index.value !in Seen(items, i))
    ensures !ShapedAndDistinct(envelope, items, n)
  {
    if ItemShape(envelope, items[i], n) {
      var j := SeenWhere(items, i, items[i].index.value);
      assert items[j].index == items[i].index;
    }
  }

  lemma FoldsGrow<B>(items: seq<Item<B>>, i: nat)
    requires i < |items| && AllReadable(items[..i + 1])
    ensures AllReadable(items[..i]) && Readable(items[i])
    ensures Completed(items[..i + 1]) ==
            if IsComplete(items[i]) then Completed(items[..i]) + [items[i]] else Completed(items[..i])
    ensures ReasonsOf(items[..i + 1]) ==
            if IsComplete(items[i]) then ReasonsOf(items[..i])
            else ReasonsOf(items[..i])[items[i].index.value := ReasonOf(items[i])]
  {
    var p := items[..i + 1];
    assert p[..|p| - 1] == items[..i];
    assert p[i] == items[i] && Readable(p[i]);
    assert forall k :: 0 <= k < i ==> items[..i][k] == p[k];
  }

  /** The validation loop. */
  method ValidateItems<B>(envelope: Tag, items: seq<Item<B>>, n: nat)
    returns (ok: bool, validated: seq<Item<B>>, reasons: map<int, string>)
    ensures ok <==> ShapedAndDistinct(envelope, items, n)
    ensures ok ==> AllReadable(items) && validated == Completed(items) && reasons == ReasonsOf(items)
  {
    var seen: set<int> := {};
    validated, reasons := [], map[];
    var i := 0;
    while i < |items|
      invariant 0 <= i <= |items|
      invariant ShapedAndDistinct(envelope, items[..i], n)
      invariant AllReadable(items[..i]) && seen == Seen(items, i)
      invariant validated == Completed(items[..i])
      invariant reasons == ReasonsOf(items[..i])
    {
      hide ShapedAndDistinct, Completed, ReasonsOf, ItemKnown, Agree, CompleteDto, Readable, AllReadable;
      var item := items[i];
      var good := CheckItem(envelope, item, n, seen);
      if !good {
        PrefixFails(envelope, items, n, i);
        return false, [], map[];
      }
      PrefixGrows(envelope, items, n, i);
      FoldsGrow(items, i);
      assert Readable(item);
      seen := seen + {item.index.value};
      if item.status == Text(COMPLETE) {
        validated := validated + [item];
      } else {
        reasons := reasons[item.index.value := ReasonText(item.reason, item.status.text)];
      }
      i := i + 1;
    }
    assert items[..i] == items;
    ok := true;
  }

  /** The assembly loop; a contradictory owner fails the whole reply. */
  method Assemble<B>(validated: seq<Item<B>>) returns (ok: bool, diffs: map<int, Certified<B>>)
    requires AllReadable(validated)
    requires forall k :: 0 <= k < |validated| ==> IsComplete(validated[k])
    ensures ok <==> forall k :: 0 <= k < |validated| ==>
                      validated[k].diff.metadata.value.coreReadable && OwnerAllowed(validated[k].diff.metadata.value)
    ensures ok ==> diffs == DiffsOf(validated)
  {
    diffs := map[];
    var i := 0;
    while i < |validated|
      invariant 0 <= i <= |validated|
      invariant forall k :: 0 <= k < i ==>
                  validated[k].diff.metadata.value.coreReadable && OwnerAllowed(validated[k].diff.metadata.value)
      invariant diffs == DiffsOf(validated[..i])
    {
      var item := validated[i];
      if !item.diff.metadata.value.coreReadable || !OwnerAllowed(item.diff.metadata.value) {
        return false, map[];
      }
      assert validated[..i + 1][..i] == validated[..i];
      diffs := diffs[item.index.value := Certify(item.diff)];
      i := i + 1;
    }
    assert validated[..i] == validated;
    ok := true;
  }

  lemma DiffsSnoc<B>(items: seq<Item<B>>, last: Item<B>)
    requires AllReadable(items) && Readable(last)
    ensures AllReadable(items + [last])
    ensures DiffsOf(items + [last]) ==
            if IsComplete(last) then DiffsOf(items)[last.index.value := Certify(last.diff)] else DiffsOf(items)
  {
    assert (items + [last])[..|items|] == items;
  }

  lemma {:induction false} CompletedAreItems<B>(items: seq<Item<B>>)
    requires AllReadable(items)
    ensures AllReadable(Completed(items))
    ensures forall k :: 0 <= k < |Completed(items)| ==> IsComplete(Completed(items)[k])
    ensures DiffsOf(Completed(items)) == DiffsOf(items)
  {
    if items != [] {
      var before, last := items[..|items| - 1], items[|items| - 1];
      assert items == before + [last];
      CompletedAreItems(before);
      DiffsSnoc(before, last);
      if IsComplete(last) {
        DiffsSnoc(Completed(before), last);
      }
    }
  }

  /** Whatever holds of every complete item holds of the validated list, and conversely. */
  lemma {:induction false} CompletedCovers<B>(items: seq<Item<B>>)
    requires AllReadable(items)
    ensures AllReadable(Completed(items))
    ensures AllStampable(items) <==> AllStampable(Completed(items))
  {
    CompletedAreItems(items);
    if items != [] {
      var before, last := items[..|items| - 1], items[|items| - 1];
      assert items == before + [last];
      hide Stampable, IsComplete, Readable;
      CompletedCovers(before);
      StampableSnoc(before, last);
      StampableSnoc(Completed(before), last);
    }
  }

  predicate AllStampable<B>(items: seq<Item<B>>) {
    forall k :: 0 <= k < |items| ==> IsComplete(items[k]) ==> Stampable(items[k])
  }

  lemma StampableSnoc<B>(items: seq<Item<B>>, last: Item<B>)
    ensures AllStampable(items + [last]) <==> AllStampable(items) && (IsComplete(last) ==> Stampable(last))
  {
    hide Stampable, IsComplete;
    var all := items + [last];
    assert all[|items|] == last && forall k :: 0 <= k < |items| ==> all[k] == items[k];
  }

  predicate Stampable<B>(item: Item<B>) {
    && item.Item? && item.diff.Dto? && item.diff.metadata.Some?
    && item.diff.metadata.value.coreReadable && OwnerAllowed(item.diff.metadata.value)
  }

  /** try_rust_core_batch_diffs once the request is known to be worth sending. */
  method TryBatch<B>(outcome: Outcome<B>, n: nat) returns (a: Attempt<B>)
    ensures outcome.Declined? ==> a == Attempt(map[], map[], outcome.why, false)
    ensures a.invalid <==> outcome.Broken? || (outcome.Answered? && !Admissible(outcome.reply, n))
    ensures a.invalid ==> a.diffs == map[] && a.reasons == map[]
    ensures outcome.Broken? ==> a.reason == outcome.why
    ensures outcome.Answered? && outcome.reply.engine == "" ==> a.reason == "unexpected engine: <missing>"
    ensures outcome.Answered? && Admissible(outcome.reply, n) ==>
              && AllReadable(outcome.reply.items.value)
              && a == Attempt(DiffsOf(outcome.reply.items.value), ReasonsOf(outcome.reply.items.value), "", false)
  {
    match outcome {
      case Declined(why) => return Attempt(map[], map[], why, false);
      case Broken(why) => return Rejected(why);
      case Answered(reply) =>
        if reply.engine != BATCH_ENGINE {
          return Rejected("unexpected engine: " + (if reply.engine != "" then reply.engine else "<missing>"));
        }
        if !EnvelopeKnown(reply.status) || reply.items.None? || |reply.items.value| != n || !reply.metadataReadable {
          return Rejected("invalid output");
        }
        var items := reply.items.value;
        var ok, validated, reasons := ValidateItems(reply.status, items, n);
        if !ok {
          return Rejected("invalid output");
        }
        CompletedAreItems(items);
        CompletedCovers(items);
        assert forall k :: 0 <= k < n ==> ItemShape(reply.status, items[k], n);
        var diffs;
        ok, diffs := Assemble(validated);
        if !ok {
          assert exists k :: 0 <= k < |validated| && !Stampable(validated[k]);
          return Rejected("invalid output");
        }
        assert forall k :: 0 <= k < |validated| ==> Stampable(validated[k]);
        return Attempt(diffs, reasons, "", false);
    }
  }

  /* ----- What an accepted reply is worth. ----- */

  function Upto(n: nat): (r: set<int>)
    ensures forall x :: x in r <==> 0 <= x < n
    ensures |r| == n
  {
    if n == 0 then {} else Upto(n - 1) + {n - 1}
  }

  lemma {:induction false} SeenSize<B>(items: seq<Item<B>>, k: nat)
    requires k <= |items| && AllReadable(items[..k]) && Distinct(items)
    ensures |Seen(items, k)| == k
  {
    if k > 0 {
      assert items[..k][..k - 1] == items[..k - 1];
      assert Readable(items[..k][k - 1]);
      SeenSize(items, k - 1);
      var x := items[k - 1].index.value;
      if x in Seen(items, k - 1) {
        var j := SeenWhere(items, k - 1, x);
      }
    }
  }

  /** Each item's own entry survives the fold, in the map its status selects. */
  lemma {:induction false} Lookup<B>(items: seq<Item<B>>, k: nat)
    requires k < |items| && AllReadable(items) && Distinct(items)
    ensures Readable(items[k])
    ensures var x := items[k].index.value;
            if items[k].status == Text("complete")
            then x in DiffsOf(items) && DiffsOf(items)[x] == Certify(items[k].diff) && x !in ReasonsOf(items)
            else x in ReasonsOf(items) && x !in DiffsOf(items) &&
                 ReasonsOf(items)[x] == if items[k].reason == "" then items[k].status.text else items[k].reason
  {
    var before, last := items[..|items| - 1], items[|items| - 1];
    assert Readable(last) && Readable(items[k]);
    if k < |items| - 1 {
      Lookup(before, k);
      assert items[k].index != last.index;
    } else {
      KeysAreSeen(before);
      assert items[..|before|] == before;
      if last.index.value in Seen(before, |before|) {
        var j := SeenWhere(before, |before|, last.index.value);
      }
    }
  }

  lemma {:induction false} KeysAreSeen<B>(items: seq<Item<B>>)
    requires AllReadable(items)
    ensures items[..|items|] == items
    ensures DiffsOf(items).Keys + ReasonsOf(items).Keys == Seen(items, |items|)
  {
    assert items[..|items|] == items;
    if items != [] {
      var before, last := items[..|items| - 1], items[|items| - 1];
      KeysAreSeen(before);
      SeenOfPrefix(items, |before|, before);
      var x := last.index.value;
      assert DiffsOf(items).Keys + ReasonsOf(items).Keys
          == DiffsOf(before).Keys + ReasonsOf(before).Keys + {x};
    }
  }

  lemma {:induction false} SeenOfPrefix<B>(items: seq<Item<B>>, k: nat, before: seq<Item<B>>)
    requires k <= |before| <= |items| && before == items[..|before|]
    requires AllReadable(items[..k]) && AllReadable(before[..k])
    ensures Seen(items, k) == Seen(before, k)
  {
    if k > 0 {
      assert items[..k][..k - 1] == items[..k - 1] && before[..k][..k - 1] == before[..k - 1];
      SeenOfPrefix(items, k - 1, before);
    }
  }

  lemma AdmissibleIsReadable<B>(r: Reply<B>, n: nat)
    requires Admissible(r, n)
    ensures AllReadable(r.items.value)
  {
    assert forall k :: 0 <= k < n ==> ItemAdmissible(r.status, r.items.value[k], n);
  }

  /** Count, range and uniqueness leave no request without exactly one answer. */
  lemma Partition<B>(r: Reply<B>, n: nat)
    requires Admissible(r, n)
    ensures AllReadable(r.items.value)
    ensures DiffsOf(r.items.value).Keys !! ReasonsOf(r.items.value).Keys
    ensures DiffsOf(r.items.value).Keys + ReasonsOf(r.items.value).Keys == Upto(n)
  {
    AdmissibleIsReadable(r, n);
    var items := r.items.value;
    KeysAreSeen(items);
    SeenSize(items, n);
    var seen := Seen(items, n);
    forall x | x in seen ensures x in Upto(n) && !(x in DiffsOf(items) && x in ReasonsOf(items)) {
      var k := SeenWhere(items, n, x);
      Lookup(items, k);
      assert ItemAdmissible(r.status, items[k], n);
    }
    SubsetOfSameSize(seen, Upto(n));
  }

  lemma SubsetOfSameSize(a: set<int>, b: set<int>)
    requires a <= b && |a| == |b|
    ensures a == b
  {
    assert b == a + (b - a);
  }

  /** Which item answers request x. */
  lemma AnswerTo<B>(r: Reply<B>, n: nat, x: int) returns (k: nat)
    requires Admissible(r, n) && 0 <= x < n
    ensures k < n && r.items.value[k].Item? && r.items.value[k].index == At(x)
  {
    Partition(r, n);
    KeysAreSeen(r.items.value);
    assert x in Upto(n);
    k := SeenWhere(r.items.value, n, x);
  }

  /** Two places that hold a value count it twice, and conversely. */
  lemma TwiceCounted<T>(s: seq<T>, j: nat, k: nat)
    requires j < k < |s| && s[j] == s[k]
    ensures multiset(s)[s[j]] >= 2
  {
    assert s == s[..k] + s[k..];
    assert s[..k][j] == s[j] && s[k..][0] == s[j];
  }

  lemma {:induction false} TwicePlaced<T>(s: seq<T>, x: T) returns (j: nat, k: nat)
    requires multiset(s)[x] >= 2
    ensures j < k < |s| && s[j] == s[k] == x
  {
    var last := |s| - 1;
    assert s == s[..last] + [s[last]];
    if s[last] != x || multiset(s)[x] > 2 {
      j, k := TwicePlaced(s[..last], x);
    } else {
      assert x in multiset(s[..last]);
      j :| 0 <= j < last && s[..last][j] == x;
      k := last;
    }
  }

  lemma MovedStaysAdmissible<B>(r: Reply<B>, moved: seq<Item<B>>, n: nat)
    requires Admissible(r, n) && multiset(moved) == multiset(r.items.value)
    ensures Admissible(r.(items := Some(moved)), n)
  {
    var items := r.items.value;
    assert |moved| == |multiset(moved)| == |multiset(items)| == n;
    hide ItemAdmissible;
    forall k | 0 <= k < n ensures ItemAdmissible(r.status, moved[k], n) && moved[k] in items {
      assert moved[k] in multiset(items);
    }
    forall j, k | 0 <= j < k < n && moved[j].Item? && moved[k].Item? ensures moved[j].index != moved[k].index {
      if moved[j] == moved[k] {
        TwiceCounted(moved, j, k);
        var a, b := TwicePlaced(items, moved[j]);
      }
    }
  }

  lemma MovedSameAnswer<B>(r: Reply<B>, r': Reply<B>, n: nat, x: int)
    requires Admissible(r, n) && Admissible(r', n) && multiset(r'.items.value) == multiset(r.items.value)
    requires 0 <= x < n && AllReadable(r.items.value) && AllReadable(r'.items.value)
    ensures x in DiffsOf(r'.items.value) <==> x in DiffsOf(r.items.value)
    ensures x in ReasonsOf(r'.items.value) <==> x in ReasonsOf(r.items.value)
    ensures x in DiffsOf(r'.items.value) ==> DiffsOf(r'.items.value)[x] == DiffsOf(r.items.value)[x]
    ensures x in ReasonsOf(r'.items.value) ==> ReasonsOf(r'.items.value)[x] == ReasonsOf(r.items.value)[x]
  {
    var k := AnswerTo(r', n, x);
    assert r'.items.value[k] in multiset(r.items.value);
    var j :| 0 <= j < n && r.items.value[j] == r'.items.value[k];
    hide ItemAdmissible, Readable, AllReadable, DiffsOf, ReasonsOf;
    Lookup(r'.items.value, k);
    Lookup(r.items.value, j);
  }

  lemma MapsAgree<V>(a: map<int, V>, b: map<int, V>, n: nat)
    requires a.Keys <= Upto(n) && b.Keys <= Upto(n)
    requires forall x :: 0 <= x < n ==> (x in b <==> x in a) && (x in b ==> b[x] == a[x])
    ensures a == b
  {
    assert forall x :: x in a.Keys ==> x in Upto(n);
    assert forall x :: x in b.Keys ==> x in Upto(n);
  }

  lemma MovedSameAnswers<B>(r: Reply<B>, r': Reply<B>, n: nat)
    requires Admissible(r, n) && Admissible(r', n) && multiset(r'.items.value) == multiset(r.items.value)
    ensures AllReadable(r.items.value) && AllReadable(r'.items.value)
    ensures DiffsOf(r'.items.value) == DiffsOf(r.items.value)
    ensures ReasonsOf(r'.items.value) == ReasonsOf(r.items.value)
  {
    AdmissibleIsReadable(r, n);
    AdmissibleIsReadable(r', n);
    Partition(r, n);
    Partition(r', n);
    hide DiffsOf, ReasonsOf, ItemAdmissible, Readable, Distinct;
    forall x | 0 <= x < n
      ensures x in DiffsOf(r'.items.value) <==> x in DiffsOf(r.items.value)
      ensures x in DiffsOf(r'.items.value) ==> DiffsOf(r'.items.value)[x] == DiffsOf(r.items.value)[x]
    {
      MovedSameAnswer(r, r', n, x);
    }
    MapsAgree(DiffsOf(r.items.value), DiffsOf(r'.items.value), n);
    forall x | 0 <= x < n
      ensures x in ReasonsOf(r'.items.value) <==> x in ReasonsOf(r.items.value)
      ensures x in ReasonsOf(r'.items.value) ==> ReasonsOf(r'.items.value)[x] == ReasonsOf(r.items.value)[x]
    {
      MovedSameAnswer(r, r', n, x);
    }
    MapsAgree(ReasonsOf(r.items.value), ReasonsOf(r'.items.value), n);
  }

  /** Item order carries no information: same verdict, same maps. */
  lemma OrderDoesNotMatter<B>(r: Reply<B>, moved: seq<Item<B>>, n: nat)
    requires r.items.Some? && multiset(moved) == multiset(r.items.value)
    ensures Admissible(r, n) <==> Admissible(r.(items := Some(moved)), n)
    ensures Admissible(r, n) ==>
              && AllReadable(moved) && AllReadable(r.items.value)
              && DiffsOf(moved) == DiffsOf(r.items.value) && ReasonsOf(moved) == ReasonsOf(r.items.value)
  {
    var r' := r.(items := Some(moved));
    if Admissible(r, n) {
      MovedStaysAdmissible(r, moved, n);
      MovedSameAnswers(r, r', n);
    }
    if Admissible(r', n) {
      MovedStaysAdmissible(r', r.items.value, n);
      assert r'.(items := Some(r.items.value)) == r;
    }
  }

  /** A complete envelope declines nothing; a fallback envelope certifies nothing. */
  lemma EnvelopeDecides<B>(r: Reply<B>, n: nat)
    requires Admissible(r, n)
    ensures AllReadable(r.items.value)
    ensures r.status == Text(COMPLETE) ==> ReasonsOf(r.items.value) == map[] && DiffsOf(r.items.value).Keys == Upto(n)
    ensures r.status == Text(FALLBACK) ==> DiffsOf(r.items.value) == map[] && ReasonsOf(r.items.value).Keys == Upto(n)
  {
    Partition(r, n);
    forall x | x in Upto(n)
      ensures r.status == Text(COMPLETE) ==> x in DiffsOf(r.items.value)
      ensures r.status == Text(FALLBACK) ==> x in ReasonsOf(r.items.value)
    {
      var k := AnswerTo(r, n, x);
      Lookup(r.items.value, k);
      assert ItemAdmissible(r.status, r.items.value[k], n);
    }
  }

  /** What the stamp guarantees.  An explicit null owner passes the check and is
    * left as it is, so the result is owned by Rust exactly when it was not null.
    */
  lemma OwnedUnlessNull<B>(r: Reply<B>, n: nat, k: nat)
    requires Admissible(r, n) && k < n && IsComplete(r.items.value[k])
    ensures var d := r.items.value[k].diff; var x := r.items.value[k].index;
            && AllReadable(r.items.value) && x.At? && x.value in DiffsOf(r.items.value)
            && d.Dto? && d.metadata.Some?
            && DiffsOf(r.items.value)[x.value].body == d.body
            && (DiffsOf(r.items.value)[x.value].owner == Is("rust") <==> d.metadata.value.owner != Null)
            && (DiffsOf(r.items.value)[x.value].contract == Is("rust_finalized_v1")
                <==> d.metadata.value.contract in {Absent, Is("rust_finalized_v1")})
            && (d.metadata.value.owner != Absent ==> DiffsOf(r.items.value)[x.value].owner == d.metadata.value.owner)
            && (d.metadata.value.contract != Absent ==>
                  DiffsOf(r.items.value)[x.value].contract == d.metadata.value.contract)
  {
    AdmissibleIsReadable(r, n);
    Lookup(r.items.value, k);
    assert ItemAdmissible(r.status, r.items.value[k], n);
  }

  /* ----- What an admissible reply is, field by field. ----- */

  /** The source nodes each kind demands; the other side, and other kinds, are free. */
  lemma AnchoredExactly(c: Change)
    ensures Anchored(c) <==>
            && c != NotAChange && c.kind != Unhashable
            && (c.kind == Named("ADDITION") ==> c.hasNew)
            && (c.kind == Named("DELETION") ==> c.hasOld)
            && (c.kind == Named("MODIFICATION") ==> c.hasOld && c.hasNew)
            && (c.kind == Named("MOVE") ==> c.hasOld && c.hasNew)
            && (c.kind == Named("REORDER") ==> c.hasOld && c.hasNew)
  {
  }

  /** What one item has to be under an envelope that is itself acceptable. */
  lemma ItemAdmissibleExactly<B>(envelope: Tag, item: Item<B>, n: nat)
    requires envelope in {Text("complete"), Text("candidate"), Text("partial"), Text("fallback")}
    ensures ItemAdmissible(envelope, item, n) <==>
            && item != NotAnItem
            && item.index.At? && 0 <= item.index.value < n
            && (item.status == Text("complete") || item.status == Text("candidate") || item.status == Text("fallback"))
            && (envelope == Text("complete") ==> item.status == Text("complete"))
            && (envelope == Text("fallback") ==> item.status == Text("fallback"))
            && (item.status == Text("complete") ==>
                  var d := item.diff;
                  && d.Dto? && d.changes.Some? && d.groups && d.parseErrors && d.guardrails
                  && d.semanticFlag && d.styleFlag && d.fallbackFlag && d.validates
                  && d.metadata.Some? && d.metadata.value.coreReadable
                  && (d.metadata.value.owner == Absent || d.metadata.value.owner == Null
                      || d.metadata.value.owner == Is("rust"))
                  && (forall c :: c in d.changes.value ==> Anchored(c)))
  {
    if item.Item? && item.diff.Dto? && item.diff.changes.Some? {
      var changes := item.diff.changes.value;
      assert (forall c :: c in changes ==> Anchored(c)) <==> (forall k :: 0 <= k < |changes| ==> Anchored(changes[k]));
    }
  }

  /** What the reply has to be, its items apart. */
  lemma AdmissibleExactly<B>(r: Reply<B>, n: nat)
    ensures Admissible(r, n) <==>
            && r.engine == "rust_core_batch_v4"
            && r.status in {Text("complete"), Text("candidate"), Text("partial"), Text("fallback")}
            && r.metadataReadable
            && r.items.Some? && |r.items.value| == n
            && (forall item :: item in r.items.value ==> ItemAdmissible(r.status, item, n))
            && (forall j, k :: 0 <= j < k < n ==> r.items.value[j] == NotAnItem || r.items.value[k] == NotAnItem
                                                  || r.items.value[j].index != r.items.value[k].index)
  {
    hide ItemAdmissible;
    if r.items.Some? && |r.items.value| == n {
      var items := r.items.value;
      assert (forall item :: item in items ==> ItemAdmissible(r.status, item, n))
        <==> (forall k :: 0 <= k < n ==> ItemAdmissible(r.status, items[k], n));
    }
  }

  /** In an admissible reply every change of a complete item has its nodes. */
  lemma ChangesAreAnchored<B>(r: Reply<B>, n: nat, item: Item<B>, c: Change)
    requires Admissible(r, n) && item in r.items.value && item.Item? && item.status == Text("complete")
    requires item.diff.Dto? && item.diff.changes.Some? && c in item.diff.changes.value
    ensures c.Change?
    ensures c.kind in {Named("ADDITION"), Named("MODIFICATION"), Named("MOVE"), Named("REORDER")} ==> c.hasNew
    ensures c.kind in {Named("DELETION"), Named("MODIFICATION"), Named("MOVE"), Named("REORDER")} ==> c.hasOld
  {
    AdmissibleExactly(r, n);
    ItemAdmissibleExactly(r.status, item, n);
    AnchoredExactly(c);
  }

  /** An otherwise well-formed reply about one file, certified complete. */
  function OneFile<B>(changes: seq<Change>, body: B): Reply<B> {
    var metadata := Some(Metadata(Absent, Absent, true));
    var diff := Dto(Some(changes), true, true, true, true, true, true, metadata, true, body);
    Reply("rust_core_batch_v4", Text("complete"), Some([Item(At(0), Text("complete"), "", diff)]), true)
  }

  /** Such a reply is admissible exactly when each change has the nodes its kind
    * demands, and is then certified and stamped.
    */
  lemma OneFileExactly<B>(changes: seq<Change>, body: B)
    ensures Admissible(OneFile(changes, body), 1) <==>
            forall c :: c in changes ==>
              && c.Change? && c.kind != Unhashable
              && (c.kind in {Named("ADDITION"), Named("MODIFICATION"), Named("MOVE"), Named("REORDER")} ==> c.hasNew)
              && (c.kind in {Named("DELETION"), Named("MODIFICATION"), Named("MOVE"), Named("REORDER")} ==> c.hasOld)
    ensures Admissible(OneFile(changes, body), 1) ==>
              && AllReadable(OneFile(changes, body).items.value)
              && DiffsOf(OneFile(changes, body).items.value)
                 == map[0 := Certified(body, Is("rust"), Is("rust_finalized_v1"))]
              && ReasonsOf(OneFile(changes, body).items.value) == map[]
  {
    var r := OneFile(changes, body);
    var item := r.items.value[0];
    AdmissibleExactly(r, 1);
    ItemAdmissibleExactly(r.status, item, 1);
    forall c { AnchoredExactly(c); }
    if Admissible(r, 1) {
      Lookup(r.items.value, 0);
      EnvelopeDecides(r, 1);
    }
  }

  lemma NullOwnerIsAccepted<B>(body: B) returns (r: Reply<B>)
    ensures Admissible(r, 1) && AllReadable(r.items.value)
    ensures 0 in DiffsOf(r.items.value) && DiffsOf(r.items.value)[0].owner == Null
  {
    var d := Dto(Some([]), true, true, true, true, true, true, Some(Metadata(Null, Absent, true)), true, body);
    var item := Item(At(0), Text(COMPLETE), "", d);
    r := Reply(BATCH_ENGINE, Text(COMPLETE), Some([item]), true);
    assert ItemAdmissible(r.status, item, 1);
    OwnedUnlessNull(r, 1, 0);
  }

  /** try_rust_core_batch_diff: the same call for one file. */
  method TrySingle<B>(outcome: Outcome<B>) returns (diff: Option<Certified<B>>, reason: string, invalid: bool)
    ensures invalid <==> outcome.Broken? || (outcome.Answered? && !Admissible(outcome.reply, 1))
    ensures diff.Some? <==>
            outcome.Answered? && Admissible(outcome.reply, 1) && IsComplete(outcome.reply.items.value[0])
    ensures diff.Some? ==> outcome.reply.items.value[0].diff.Dto? && outcome.reply.items.value[0].diff.metadata.Some?
                           && diff.value == Certify(outcome.reply.items.value[0].diff)
    ensures diff.Some? <==> reason == ""
    ensures !outcome.Answered? ==> reason == if outcome.why == "" then "batch item is incomplete" else outcome.why
    ensures outcome.Answered? && Admissible(outcome.reply, 1) && diff.None? ==>
              var item := outcome.reply.items.value[0];
              item.Item? && item.status.Text? && reason == if item.reason == "" then item.status.text else item.reason
  {
    var a := TryBatch(outcome, 1);
    if outcome.Answered? && !a.invalid {
      Partition(outcome.reply, 1);
      assert 0 in Upto(1);
      assert ItemAdmissible(outcome.reply.status, outcome.reply.items.value[0], 1);
      Lookup(outcome.reply.items.value, 0);
      assert forall x :: x in a.diffs ==> x in Upto(1);
    }
    if |a.diffs| != 0 {
      return Some(a.diffs[0]), "", false;
    }
    reason := if 0 in a.reasons && a.reasons[0] != "" then a.reasons[0]
              else if a.reason != "" then a.reason
              else "batch item is incomplete";
    return None, reason, a.invalid;
  }
}
