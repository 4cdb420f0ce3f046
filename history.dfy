/**
 * The "Learning Journey" list (`HistoryList`): saved sessions from the cloud
 * table followed by legacy entries kept in the browser's local storage,
 * read through accessors that accept both the snake_case column names and
 * the older camelCase names, and deleted from wherever they came from.
 */
module History {
  import opened JsText
  import opened Analysis

  /** The session texts of an entry under one naming convention; any of them may be missing. */
  datatype Versions = Versions(
    originalText: Option<string>,
    grammar: Option<string>,
    professional: Option<string>,
    casual: Option<string>)

  const NoVersions := Versions(None, None, None, None)

  /**
   * A history entry. `snake` holds `original_text`, `grammar_version`,
   * `professional_version` and `casual_version`; `camel` holds
   * `originalText`, `grammarVersion`, `professionalVersion` and
   * `casualVersion`. Cloud rows have UUID ids, which contain '-'.
   */
  datatype Item = Item(id: string, date: string, snake: Versions, camel: Versions)

  datatype Field = OriginalField | GrammarField | ProfessionalField | CasualField

  function Pick(v: Versions, f: Field): Option<string> {
    match f
    case OriginalField => v.originalText
    case GrammarField => v.grammar
    case ProfessionalField => v.professional
    case CasualField => v.casual
  }

  /** `item.snake_name || item.camelName`. */
  function Read(item: Item, f: Field): (r: Option<string>)
    ensures Truthy(Pick(item.snake, f)) ==> r == Pick(item.snake, f)
    ensures !Truthy(Pick(item.snake, f)) ==> r == Pick(item.camel, f)
  {
    Or(Pick(item.snake, f), Pick(item.camel, f))
  }

  /** A field shows (its section is rendered) exactly when either naming holds a non-empty text. */
  lemma ReadTruthy(item: Item, f: Field)
    ensures Truthy(Read(item, f)) <==> Truthy(Pick(item.snake, f)) || Truthy(Pick(item.camel, f))
  {
  }

  /** An entry written under one naming only reads back that naming's texts. */
  lemma ReadSingleNaming(v: Versions, f: Field, id: string, date: string)
    ensures Truthy(Pick(v, f)) ==> Read(Item(id, date, v, NoVersions), f) == Pick(v, f)
    ensures Truthy(Read(Item(id, date, NoVersions, v), f)) <==> Truthy(Pick(v, f))
  {
  }

  /**
   * The report input built from an entry: the transcript (or ""), a grammar
   * section only when a grammar text exists, and then with no mistakes, the
   * tone texts or null, and the stored date as it is.
   */
  function ItemReport(item: Item): (r: ReportInput)
    ensures r.originalText == OrElse(Read(item, OriginalField), "")
    ensures r.grammarResult.Some? <==>
      Truthy(Pick(item.snake, GrammarField)) || Truthy(Pick(item.camel, GrammarField))
    ensures r.grammarResult.Some? ==>
      && r.grammarResult.value.mistakes == Some([])
      && r.grammarResult.value.correctedText == Read(item, GrammarField)
      && r.grammarResult.value.correctedText.value != ""
    ensures r.professionalText.Some? <==> Truthy(Read(item, ProfessionalField))
    ensures r.professionalText.Some? ==> r.professionalText == Read(item, ProfessionalField)
    ensures r.casualText.Some? <==> Truthy(Read(item, CasualField))
    ensures r.casualText.Some? ==> r.casualText == Read(item, CasualField)
    ensures r.date == item.date
  {
    var grammar := Read(item, GrammarField);
    ReportInput(
      OrElse(Read(item, OriginalField), ""),
      if Truthy(grammar) then Some(AnalysisData(Some(OrElse(grammar, "")), Some([]), None, None)) else None,
      OrNull(Read(item, ProfessionalField)),
      OrNull(Read(item, CasualField)),
      item.date)
  }

  // ---------------------------------------------------------------------------
  // Where an entry lives.

  /** `id.includes('-')`: the id is a cloud UUID. */
  predicate HasHyphen(id: string) {
    '-' in id
  }

  /** `items.filter(item => item.id !== id)`. */
  function WithoutId(items: seq<Item>, id: string): (r: seq<Item>)
    ensures |r| <= |items|
  {
    if items == [] then []
    else (if items[0].id == id then [] else [items[0]]) + WithoutId(items[1..], id)
  }

  /** `items.filter(i => !i.id.includes('-'))`: the entries that belong in local storage. */
  function LocalShaped(items: seq<Item>): (r: seq<Item>)
    ensures |r| <= |items|
  {
    if items == [] then []
    else (if HasHyphen(items[0].id) then [] else [items[0]]) + LocalShaped(items[1..])
  }

  /** Deleting removes every entry with the id and keeps all others. */
  lemma {:induction false} WithoutIdMembers(items: seq<Item>, id: string)
    ensures forall x :: x in WithoutId(items, id) <==> x in items && x.id != id
    decreases |items|
  {
    if items != [] {
      WithoutIdMembers(items[1..], id);
      assert items == [items[0]] + items[1..];
    }
  }

  /** Local storage only ever receives entries whose id has no '-'. */
  lemma {:induction false} LocalShapedMembers(items: seq<Item>)
    ensures forall x :: x in LocalShaped(items) <==> x in items && !HasHyphen(x.id)
    decreases |items|
  {
    if items != [] {
      LocalShapedMembers(items[1..]);
      assert items == [items[0]] + items[1..];
    }
  }

  /** Deleting an id that is not present changes nothing. */
  lemma {:induction false} WithoutAbsentId(items: seq<Item>, id: string)
    requires forall x :: x in items ==> x.id != id
    ensures WithoutId(items, id) == items
    decreases |items|
  {
    if items != [] {
      assert forall x :: x in items[1..] ==> x in items;
      WithoutAbsentId(items[1..], id);
      assert items == [items[0]] + items[1..];
    }
  }

  /** Deleting the same id twice is deleting it once. */
  lemma {:induction false} WithoutIdIdempotent(items: seq<Item>, id: string)
    ensures WithoutId(WithoutId(items, id), id) == WithoutId(items, id)
  {
    WithoutIdMembers(items, id);
    WithoutAbsentId(WithoutId(items, id), id);
  }

  lemma {:induction false} WithoutIdAppend(a: seq<Item>, b: seq<Item>, id: string)
    ensures WithoutId(a + b, id) == WithoutId(a, id) + WithoutId(b, id)
    decreases |a|
  {
    if a != [] {
      WithoutIdAppend(a[1..], b, id);
      assert (a + b)[1..] == a[1..] + b;
    } else {
      assert a + b == b;
    }
  }

  lemma {:induction false} LocalShapedAppend(a: seq<Item>, b: seq<Item>)
    ensures LocalShaped(a + b) == LocalShaped(a) + LocalShaped(b)
    decreases |a|
  {
    if a != [] {
      LocalShapedAppend(a[1..], b);
      assert (a + b)[1..] == a[1..] + b;
    } else {
      assert a + b == b;
    }
  }

  /** The entries kept locally are left as they are; cloud entries are all dropped. */
  lemma {:induction false} LocalShapedSorts(items: seq<Item>)
    ensures (forall x :: x in items ==> !HasHyphen(x.id)) ==> LocalShaped(items) == items
    ensures (forall x :: x in items ==> HasHyphen(x.id)) ==> LocalShaped(items) == []
    decreases |items|
  {
    if items != [] {
      assert forall x :: x in items[1..] ==> x in items;
      LocalShapedSorts(items[1..]);
      assert items == [items[0]] + items[1..];
    }
  }

  /**
   * Provenance: when the view is cloud entries (ids with '-') followed by
   * local entries (ids without), deleting an id and keeping the local-shaped
   * rest writes back exactly the local entries minus that id.
   */
  lemma DeleteKeepsLocalEntries(cloud: seq<Item>, local: seq<Item>, id: string)
    requires forall x :: x in cloud ==> HasHyphen(x.id)
    requires forall x :: x in local ==> !HasHyphen(x.id)
    ensures LocalShaped(WithoutId(cloud + local, id)) == WithoutId(local, id)
  {
    WithoutIdAppend(cloud, local, id);
    LocalShapedAppend(WithoutId(cloud, id), WithoutId(local, id));
    WithoutIdMembers(cloud, id);
    WithoutIdMembers(local, id);
    LocalShapedSorts(WithoutId(cloud, id));
    LocalShapedSorts(WithoutId(local, id));
  }

  // ---------------------------------------------------------------------------

  /**
   * The list component's state together with the two stores it talks to:
   * `cloud` is the user's rows of the cloud table in the order the query
   * returns them (newest first), `local` the parsed local-storage list
   * (`None` while the key has never been written).
   */
  class HistoryList {
    var history: seq<Item>
    var expandedId: Option<string>
    var cloud: seq<Item>
    var local: Option<seq<Item>>

    constructor(cloud: seq<Item>, local: Option<seq<Item>>)
      ensures history == [] && expandedId.None?
      ensures this.cloud == cloud && this.local == local
    {
      history := [];
      expandedId := None;
      this.cloud := cloud;
      this.local := local;
    }

    /** `JSON.parse(localStorage.getItem(key) || '[]')`. */
    function LocalList(): (r: seq<Item>)
      reads this
      ensures local.None? ==> r == []
      ensures local.Some? ==> r == local.value
    {
      if local.Some? then local.value else []
    }

    /**
     * `loadHistory`: cloud rows when signed in and the query answered with
     * data, nothing otherwise, followed by the local entries.
     */
    method LoadHistory(signedIn: bool, queryFailed: bool)
      modifies this
      ensures history == (if signedIn && !queryFailed then cloud else []) + LocalList()
      ensures cloud == old(cloud) && local == old(local) && expandedId == old(expandedId)
    {
      var cloudData: seq<Item> := [];
      if signedIn {
        if !queryFailed {
          cloudData := cloud;
        }
      }
      var localSaved := LocalList();
      history := cloudData + localSaved;
    }

    /**
     * `deleteItem`: a cloud delete is issued exactly when the id contains '-'
     * (`removed` says whether the table honoured it), the view loses every
     * entry with the id, and local storage is overwritten with the view's
     * entries whose ids have no '-'. Returns whether the cloud was asked.
     */
    method DeleteItem(id: string, removed: bool) returns (askedCloud: bool)
      modifies this
      ensures askedCloud <==> HasHyphen(id)
      ensures cloud == if askedCloud && removed then WithoutId(old(cloud), id) else old(cloud)
      ensures history == WithoutId(old(history), id)
      ensures local == Some(LocalShaped(history))
      ensures expandedId == old(expandedId)
    {
      askedCloud := HasHyphen(id);
      if askedCloud && removed {
        cloud := WithoutId(cloud, id);
      }
      var updated := WithoutId(history, id);
      local := Some(LocalShaped(updated));
      history := updated;
    }

    /** Clicking an entry expands it, or collapses it when it is the expanded one. */
    method ToggleExpanded(id: string)
      modifies this
      ensures expandedId == if old(expandedId) == Some(id) then None else Some(id)
      ensures history == old(history) && cloud == old(cloud) && local == old(local)
    {
      expandedId := if expandedId == Some(id) then None else Some(id);
    }
  }

  /**
   * Loading with a signed-in user and then deleting leaves local storage with
   * the former local entries minus the deleted id, provided cloud ids carry
   * '-' and local ids do not.
   */
  method LoadThenDelete(list: HistoryList, id: string, removed: bool) returns (askedCloud: bool)
    requires forall x :: x in list.cloud ==> HasHyphen(x.id)
    requires forall x :: x in list.LocalList() ==> !HasHyphen(x.id)
    modifies list
    ensures list.local == Some(WithoutId(old(list.LocalList()), id))
    ensures list.history == WithoutId(old(list.cloud) + old(list.LocalList()), id)
  {
    list.LoadHistory(true, false);
    askedCloud := list.DeleteItem(id, removed);
    DeleteKeepsLocalEntries(old(list.cloud), old(list.LocalList()), id);
  }
}
