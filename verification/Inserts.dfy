/**
 INSERT statements with their column lists. src/db/query_encryption.rs seals parameters by fixed numbers;
 which columns those are is up to the statement. A row's encrypted columns survive exactly when the two
 agree.
 */
module Inserts {
  import opened Wrappers
  import opened Text
  import opened Sql
  import opened Mutation
  import opened Cipher
  import opened Encryption

  /** What a column is set to: the next parameter, or a value written into the statement. */
  datatype Slot = Bound | Literal(sql: string, value: Value)

  datatype Insertion = Insertion(table: string, columns: seq<string>, slots: seq<Slot>, rest: string)

  // ----- The statement's text

  function SlotText(slot: Slot): string {
    match slot
    case Bound => "?"
    case Literal(sql, _) => sql
  }

  function SlotTexts(slots: seq<Slot>): (texts: seq<string>)
    ensures |texts| == |slots|
  {
    if slots == [] then [] else [SlotText(slots[0])] + SlotTexts(slots[1..])
  }

  function Listed(parts: seq<string>): string {
    if parts == [] then []
    else if |parts| == 1 then parts[0]
    else parts[0] + (", " + Listed(parts[1..]))
  }

  function Head(ins: Insertion): string {
    "insert" + (" " + ("into" + (" " + (ins.table + (" (" + (Listed(ins.columns) + ") values ("))))))
  }

  function InsertText(ins: Insertion): string {
    Head(ins) + (Listed(SlotTexts(ins.slots)) + (")" + ins.rest))
  }

  predicate IsName(s: string) {
    s != [] && forall i | 0 <= i < |s| :: 'a' <= s[i] <= 'z' || s[i] == '_'
  }

  predicate IsEnvelope(v: Value) { v.Text? && ENVELOPE_PREFIX <= v.text }

  ghost predicate AllNames(columns: seq<string>) { forall i | 0 <= i < |columns| :: IsName(columns[i]) }

  ghost predicate PlainLiterals(slots: seq<Slot>) {
    forall i | 0 <= i < |slots| && slots[i].Literal? :: '?' !in slots[i].sql && !IsEnvelope(slots[i].value)
  }

  ghost predicate IsInsertion(sql: string, ins: Insertion) {
    && IsName(ins.table) && AllNames(ins.columns) && |ins.slots| == |ins.columns| && PlainLiterals(ins.slots)
    && Normalize(sql) == InsertText(ins)
  }

  /** The number of the parameter that slot `j` takes. */
  function Number(slots: seq<Slot>, j: nat): nat
    requires j <= |slots|
  {
    if j == 0 then 0 else Number(slots, j - 1) + if slots[j - 1].Bound? then 1 else 0
  }

  // ----- Parameters are numbered by the placeholders before them

  function ListedBefore(parts: seq<string>, j: nat): string
    requires j <= |parts|
  {
    if j == 0 then [] else parts[0] + (", " + ListedBefore(parts[1..], j - 1))
  }

  lemma FourTexts(a: string, b: string, c: string, d: string)
    requires c <= d
    ensures (a + (b + c)) <= a + (b + d)
  {
  }

  lemma {:induction false} ListedStartsWith(parts: seq<string>, j: nat)
    requires j < |parts|
    ensures ListedBefore(parts, j) + parts[j] <= Listed(parts)
  {
    if j == 0 {
      assert [] + parts[0] == parts[0];
    } else {
      ListedStartsWith(parts[1..], j - 1);
      FourTexts(parts[0], ", ", ListedBefore(parts[1..], j - 1) + parts[j], Listed(parts[1..]));
      assert ListedBefore(parts, j) + parts[j] == parts[0] + (", " + (ListedBefore(parts[1..], j - 1) + parts[j]));
    }
  }

  lemma {:induction false} NumberFromFront(slots: seq<Slot>, j: nat)
    requires 0 < j <= |slots|
    ensures Number(slots, j) == (if slots[0].Bound? then 1 else 0) + Number(slots[1..], j - 1)
  {
    if j > 1 {
      NumberFromFront(slots, j - 1);
    }
  }

  lemma PlaceholderIsOne()
    ensures Count("?", '?') == 1 && Count(", ", '?') == 0
  {
  }

  lemma SlotCounts(slot: Slot)
    requires slot.Literal? ==> '?' !in slot.sql
    ensures Count(SlotText(slot), '?') == if slot.Bound? then 1 else 0
  {
    PlaceholderIsOne();
    CountNone(SlotText(slot), '?');
  }

  lemma {:induction false} ListedCounts(slots: seq<Slot>, j: nat)
    requires j <= |slots| && PlainLiterals(slots)
    ensures Count(ListedBefore(SlotTexts(slots), j), '?') == Number(slots, j)
    decreases j
  {
    hide SlotText, Count;
    if j == 0 {
      CountNone("", '?');
    } else {
      ListedCounts(slots[1..], j - 1);
      NumberFromFront(slots, j);
      SlotCounts(slots[0]);
      PlaceholderIsOne();
      var behind := ListedBefore(SlotTexts(slots[1..]), j - 1);
      assert SlotTexts(slots)[1..] == SlotTexts(slots[1..]);
      CountConcat(SlotText(slots[0]), ", " + behind, '?');
      CountConcat(", ", behind, '?');
    }
  }

  lemma {:induction false} ListedNames(columns: seq<string>)
    requires AllNames(columns)
    ensures '?' !in Listed(columns)
  {
    if |columns| > 1 {
      ListedNames(columns[1..]);
    }
  }

  lemma HeadHasNone(ins: Insertion)
    requires IsName(ins.table) && AllNames(ins.columns)
    ensures '?' !in Head(ins)
  {
    hide Listed;
    ListedNames(ins.columns);
  }

  function BeforeSlot(ins: Insertion, j: nat): string
    requires j < |ins.slots|
  {
    Head(ins) + ListedBefore(SlotTexts(ins.slots), j)
  }

  lemma ThenMore(a: string, b: string, c: string, d: string)
    requires b + c <= d
    ensures (a + b) + c <= a + d
  {
  }

  lemma {:induction false} SlotTextAt(slots: seq<Slot>, j: nat)
    requires j < |slots|
    ensures SlotTexts(slots)[j] == SlotText(slots[j])
  {
    if j > 0 {
      SlotTextAt(slots[1..], j - 1);
    }
  }

  /** A slot's parameter has the number of the question marks before the slot in the statement. */
  lemma PlaceholdersAreNumbered(sql: string, ins: Insertion, j: nat)
    requires IsInsertion(sql, ins) && j < |ins.slots|
    ensures BeforeSlot(ins, j) + SlotText(ins.slots[j]) <= Normalize(sql)
    ensures Count(BeforeSlot(ins, j), '?') == Number(ins.slots, j)
  {
    hide Head, SlotText, Listed, Count, Normalize, ListedBefore, SlotTexts, Number;
    var texts := SlotTexts(ins.slots);
    SlotTextAt(ins.slots, j);
    ListedStartsWith(texts, j);
    ThenMore(Head(ins), ListedBefore(texts, j), texts[j], Listed(texts) + (")" + ins.rest));
    HeadHasNone(ins);
    CountNone(Head(ins), '?');
    CountConcat(Head(ins), ListedBefore(texts, j), '?');
    ListedCounts(ins.slots, j);
  }

  // ----- What is stored

  lemma InsertIsClassified(table: string, rest: string)
    requires IsWord(table)
    ensures var text := "insert" + (" " + ("into" + (" " + (table + (" " + rest)))));
            !(WITH <= text) && Classify(Words(text), text) == Some(Insert(table))
  {
    assert IsWord("insert") && IsWord("into");
    var text := "insert" + (" " + ("into" + (" " + (table + (" " + rest)))));
    assert text[0] == 'i';
    hide Words;
    FirstWord("insert", " " + ("into" + (" " + (table + (" " + rest)))));
    BlankSeparates("into" + (" " + (table + (" " + rest))));
    FirstWord("into", " " + (table + (" " + rest)));
    BlankSeparates(table + (" " + rest));
    FirstWord(table, " " + rest);
  }

  lemma NameIsWord(w: string)
    requires IsName(w)
    ensures IsWord(w) && ':' !in w
  {
  }

  lemma HeadOpens(ins: Insertion)
    ensures var behind := "(" + (Listed(ins.columns) + (") values (" + (Listed(SlotTexts(ins.slots)) + (")" + ins.rest))));
            InsertText(ins) == "insert" + (" " + ("into" + (" " + (ins.table + (" " + behind)))))
  {
    hide Listed, SlotTexts;
    assert " (" == " " + "(";
  }

  lemma InsertionIsInsert(sql: string, ins: Insertion)
    requires IsInsertion(sql, ins)
    ensures QueryMutationOf(sql) == Some(Insert(ins.table))
  {
    hide Normalize, Classify, Words, InsertText, Listed, IsName, StripFrom, SlotTexts;
    NormalisingDoesNotMatter(sql);
    NameIsWord(ins.table);
    HeadOpens(ins);
    var values := Listed(SlotTexts(ins.slots));
    InsertIsClassified(ins.table, "(" + (Listed(ins.columns) + (") values (" + (values + (")" + ins.rest)))));
  }

  /** The value a column gets. A parameter that is not bound is NULL. */
  function Given(ins: Insertion, params: seq<Value>, j: nat): Value
    requires j < |ins.slots|
  {
    match ins.slots[j]
    case Literal(_, value) => value
    case Bound => if Number(ins.slots, j) < |params| then params[Number(ins.slots, j)] else Null
  }

  predicate IsEncrypted(table: string, column: string) {
    column in {"title", "body", "payload_json"} && table in TablesFor(column)
  }

  /** Text for an encrypted column is sealed, and comes back under the column's name from its row; every
      other value is stored as it is. */
  ghost predicate StoredWell(s: Service, table: string, column: string, rowId: string, given: Value, stored: Value) {
    if IsEncrypted(table, column) && given.Text? && !IsEnvelope(given) then
      && IsEnvelope(stored)
      && forall row: DbRow | row.encryption == Some(s) && RowId(row) == rowId ::
           DecryptValue(row, column, stored) == Got(given)
    else stored == given
  }

  ghost predicate InsertedWell(s: Service, draw: Draw, sql: string, ins: Insertion, id: nat, params: seq<Value>)
    requires id < |ins.slots| == |ins.columns| && ValueAsStr(Given(ins, params, id)).Some?
  {
    var sealed := SealedParams(s, draw, params, sql);
    && sealed.Some?
    && forall j | 0 <= j < |ins.slots| ::
         StoredWell(s, ins.table, ins.columns[j], ValueAsStr(Given(ins, params, id)).value,
                    Given(ins, params, j), Given(ins, sealed.value, j))
  }

  /** All columns are stored well, whatever the parameters, if they give the row an id. */
  ghost predicate Transparent(s: Service, draw: Draw, sql: string, ins: Insertion, id: nat)
    requires id < |ins.slots| == |ins.columns|
  {
    forall params | ValueAsStr(Given(ins, params, id)).Some? :: InsertedWell(s, draw, sql, ins, id, params)
  }

  /** The sealed parameters belong to the encrypted columns. */
  ghost predicate NumbersAgree(ins: Insertion, j: nat)
    requires j < |ins.slots| == |ins.columns|
  {
    match ins.slots[j]
    case Bound =>
      forall name ::
        IsInserted(ins.table, Number(ins.slots, j), name) <==> name == ins.columns[j] && IsEncrypted(ins.table, name)
    case Literal(_, value) => !(IsEncrypted(ins.table, ins.columns[j]) && value.Text?)
  }

  /** They do for every column, and the row's id is the first parameter. */
  ghost predicate Aligned(ins: Insertion, id: nat)
    requires id < |ins.slots| == |ins.columns|
  {
    && (forall j | 0 <= j < |ins.slots| :: NumbersAgree(ins, j))
    && ((exists j :: 0 <= j < |ins.slots| && ins.slots[j].Bound? && IsEncrypted(ins.table, ins.columns[j])) ==>
          ins.slots[id].Bound? && Number(ins.slots, id) == 0)
  }

  lemma EncryptedNames(table: string, column: string)
    requires IsEncrypted(table, column)
    ensures ':' !in table && ':' !in column && table in TablesFor(column)
  {
    assert table in ["threads", "comments", "conversation_messages", "notifications", "webhook_jobs"];
  }

  lemma InsertedIsEncrypted(table: string, value: nat, column: string)
    requires IsInserted(table, value, column)
    ensures IsEncrypted(table, column) && value != 0
  {
    InsertedNames(table, value, column);
  }

  lemma EnvelopeStays(s: Service, n: Nonce, table: string, rowId: string, column: string, text: string)
    requires ENVELOPE_PREFIX <= text
    ensures Encrypt(s, n, table, rowId, column, text) == text
  {
  }

  lemma SealedIsStoredWell(s: Service, n: Nonce, table: string, column: string, rowId: string, text: string)
    requires Ideal(s) && IsEncrypted(table, column)
    ensures StoredWell(s, table, column, rowId, Text(text), Text(Encrypt(s, n, table, rowId, column, text)))
  {
    hide Encrypt, Ideal, IsEncrypted, DecryptValue, RowId, TablesFor;
    EncryptedNames(table, column);
    if ENVELOPE_PREFIX <= text {
      EnvelopeStays(s, n, table, rowId, column, text);
    } else {
      EncryptingTwice(s, n, n, table, rowId, column, text);
      forall row: DbRow | row.encryption == Some(s) && RowId(row) == rowId
        ensures DecryptValue(row, column, Text(Encrypt(s, n, table, rowId, column, text))) == Got(Text(text))
      {
        StoredIsReadBackExactly(s, n, table, rowId, column, text, row, column);
      }
    }
  }

  lemma AlignedStoresWell(s: Service, draw: Draw, sql: string, ins: Insertion, id: nat,
                          params: seq<Value>, sealed: seq<Value>, j: nat)
    requires Ideal(s) && IsInsertion(sql, ins) && ins.table != "webhook_jobs" && j < |ins.slots|
    requires id < |ins.slots| && Aligned(ins, id) && ValueAsStr(Given(ins, params, id)).Some?
    requires SealedParams(s, draw, params, sql) == Some(sealed) && |sealed| == |params|
    ensures StoredWell(s, ins.table, ins.columns[j], ValueAsStr(Given(ins, params, id)).value,
                       Given(ins, params, j), Given(ins, sealed, j))
  {
    hide IsInsertion, SealedParams, StoredWell, Encrypt, Ideal, IsEncrypted, ValueAsStr, QueryMutationOf, IsInserted, Number;
    InsertionIsInsert(sql, ins);
    InsertionLengths(sql, ins);
    assert NumbersAgree(ins, j);
    var column := ins.columns[j];
    var i := Number(ins.slots, j);
    if ins.slots[j].Bound? && i < |params| {
      InsertSealsExactly(s, draw, params, sql, ins.table, i);
      if IsEncrypted(ins.table, column) && params[i].Text? {
        assert IsInserted(ins.table, i, column);
        SealedIsStoredWell(s, draw(i), ins.table, column, ValueAsStr(params[0]).value, params[i].text);
      } else {
        UnchangedIsStoredWell(s, ins.table, column, ValueAsStr(Given(ins, params, id)).value, params[i]);
      }
    } else {
      UnchangedIsStoredWell(s, ins.table, column, ValueAsStr(Given(ins, params, id)).value, Given(ins, params, j));
    }
  }

  lemma UnchangedIsStoredWell(s: Service, table: string, column: string, rowId: string, given: Value)
    requires !(IsEncrypted(table, column) && given.Text?)
    ensures StoredWell(s, table, column, rowId, given, given)
  {
    hide IsEncrypted;
  }

  lemma SealedKeepsLength(s: Service, draw: Draw, sql: string, ins: Insertion, params: seq<Value>)
    requires IsInsertion(sql, ins) && ins.table != "webhook_jobs"
    ensures SealedParams(s, draw, params, sql).Some? && |SealedParams(s, draw, params, sql).value| == |params|
  {
    hide IsInsertion, QueryMutationOf, Encrypt;
    InsertionIsInsert(sql, ins);
  }

  lemma AlignedIsTransparent(s: Service, draw: Draw, sql: string, ins: Insertion, id: nat)
    requires Ideal(s) && IsInsertion(sql, ins) && ins.table != "webhook_jobs"
    requires id < |ins.slots| && Aligned(ins, id)
    ensures Transparent(s, draw, sql, ins, id)
  {
    hide IsInsertion, SealedParams, Ideal, Aligned, StoredWell, Given, ValueAsStr;
    InsertionLengths(sql, ins);
    forall params | ValueAsStr(Given(ins, params, id)).Some?
      ensures InsertedWell(s, draw, sql, ins, id, params)
    {
      SealedKeepsLength(s, draw, sql, ins, params);
      var sealed := SealedParams(s, draw, params, sql).value;
      forall j | 0 <= j < |ins.slots|
        ensures StoredWell(s, ins.table, ins.columns[j], ValueAsStr(Given(ins, params, id)).value,
                           Given(ins, params, j), Given(ins, sealed, j))
      {
        AlignedStoresWell(s, draw, sql, ins, id, params, sealed, j);
      }
    }
  }

  lemma InsertionLengths(sql: string, ins: Insertion)
    requires IsInsertion(sql, ins)
    ensures |ins.slots| == |ins.columns|
  {
  }

  /** The row as it is read back, with all its columns. */
  function StoredRow(s: Service, ins: Insertion, sealed: seq<Value>, columns: map<string, nat>, hint: Option<string>): DbRow {
    DbRow(StoredValues(ins, sealed, |ins.slots|), columns, hint, Some(s))
  }

  function StoredValues(ins: Insertion, sealed: seq<Value>, n: nat): (values: seq<Value>)
    requires n <= |ins.slots|
    ensures |values| == n && forall j | 0 <= j < n :: values[j] == Given(ins, sealed, j)
  {
    if n == 0 then [] else StoredValues(ins, sealed, n - 1) + [Given(ins, sealed, n - 1)]
  }

  /** What an aligned INSERT was given is read back from the row it made, column by column, whatever the
      query suggests as its id. */
  lemma InsertedRowIsRead(s: Service, draw: Draw, sql: string, ins: Insertion, id: nat, params: seq<Value>,
                          columns: map<string, nat>, hint: Option<string>, j: nat)
    requires Ideal(s) && IsInsertion(sql, ins) && ins.table != "webhook_jobs"
    requires id < |ins.slots| && j < |ins.slots| && Aligned(ins, id) && ValueAsStr(Given(ins, params, id)).Some?
    requires "id" in columns && columns["id"] == id && ins.columns[id] == "id" && !IsEnvelope(Given(ins, params, j))
    ensures var sealed := SealedParams(s, draw, params, sql);
            && sealed.Some?
            && var row := StoredRow(s, ins, sealed.value, columns, hint);
               DecryptValue(row, ins.columns[j], row.values[j]) == Got(Given(ins, params, j))
  {
    hide IsInsertion, SealedParams, Ideal, Aligned, DecryptValue, RowId, ValueAsStr, Number, IsEncrypted;
    AlignedIsTransparent(s, draw, sql, ins, id);
    InsertionLengths(sql, ins);
    assert InsertedWell(s, draw, sql, ins, id, params);
    var sealed := SealedParams(s, draw, params, sql).value;
    var row := StoredRow(s, ins, sealed, columns, hint);
    IdIsNotEncrypted(ins.table);
    RowIdExactly(row, ValueAsStr(Given(ins, params, id)).value);
    if row.values[j] == Given(ins, params, j) {
      PlainIsRead(row, ins.columns[j], row.values[j]);
    }
  }

  lemma IdIsNotEncrypted(table: string)
    ensures !IsEncrypted(table, "id")
  {
  }

  lemma PlainIsRead(row: DbRow, name: string, value: Value)
    requires !IsEnvelope(value)
    ensures DecryptValue(row, name, value) == Got(value)
  {
    SealedNeedsTheKey(row, name, value);
  }

  // ----- And in no other case

  /** Parameters that tell rows apart: the first is `first`, all others are "b". */
  function Probe(n: nat, first: string): (params: seq<Value>)
    ensures |params| == n
    ensures forall i | 0 <= i < n :: params[i] == Text(if i == 0 then first else "b")
  {
    if n == 0 then [] else Probe(n - 1, first) + [Text(if n == 1 then first else "b")]
  }

  lemma {:induction false} NumbersIncrease(slots: seq<Slot>, j: nat, k: nat)
    requires j < k <= |slots| && slots[j].Bound?
    ensures Number(slots, j) < Number(slots, k)
    decreases k
  {
    if j < k - 1 {
      NumbersIncrease(slots, j, k - 1);
    }
  }

  lemma ProbeGives(ins: Insertion, first: string, j: nat)
    requires j < |ins.slots| && ins.slots[j].Bound?
    ensures Number(ins.slots, j) < Number(ins.slots, |ins.slots|)
    ensures Given(ins, Probe(Number(ins.slots, |ins.slots|), first), j)
            == Text(if Number(ins.slots, j) == 0 then first else "b")
  {
    hide Number;
    NumbersIncrease(ins.slots, j, |ins.slots|);
  }

  lemma ARow(s: Service, rowId: string) returns (row: DbRow)
    ensures row.encryption == Some(s) && RowId(row) == rowId
  {
    row := DbRow([], map[], Some(rowId), Some(s));
  }

  lemma SealedElsewhereIsNotWell(s: Service, n: Nonce, table: string, column: string, rowId: string,
                                     sealedAs: string, sealedFor: string, text: string)
    requires Ideal(s) && !(ENVELOPE_PREFIX <= text) && ':' !in column && IsEncrypted(table, sealedAs)
    requires column != sealedAs || rowId != sealedFor
    ensures !StoredWell(s, table, column, rowId, Text(text), Text(Encrypt(s, n, table, sealedFor, sealedAs, text)))
  {
    hide Encrypt, Ideal, IsEncrypted, DecryptValue, RowId, TablesFor;
    EncryptedNames(table, sealedAs);
    EncryptingTwice(s, n, n, table, sealedFor, sealedAs, text);
    var row := ARow(s, rowId);
    StoredIsReadBackExactly(s, n, table, sealedFor, sealedAs, text, row, column);
  }

  lemma PlainIsNotWell(s: Service, table: string, column: string, rowId: string, given: Value)
    requires IsEncrypted(table, column) && given.Text? && !IsEnvelope(given)
    ensures !StoredWell(s, table, column, rowId, given, given)
  {
    hide IsEncrypted;
  }

  lemma ShortIsPlain(text: string)
    requires |text| <= 1
    ensures !(ENVELOPE_PREFIX <= text)
  {
  }

  /** What the theorem needs to know of one probe. */
  lemma ProbeIsInserted(s: Service, draw: Draw, sql: string, ins: Insertion, id: nat, first: string, j: nat)
    returns (rowId: string, given: Value, stored: Value)
    requires IsInsertion(sql, ins) && ins.table != "webhook_jobs" && id < |ins.slots| && j < |ins.slots|
    requires ins.slots[id].Literal? ==> ValueAsStr(ins.slots[id].value).Some?
    requires Transparent(s, draw, sql, ins, id)
    ensures StoredWell(s, ins.table, ins.columns[j], rowId, given, stored)
    ensures rowId == match ins.slots[id]
                     case Literal(_, value) => ValueAsStr(value).value
                     case Bound => if Number(ins.slots, id) == 0 then first else "b"
    ensures ins.slots[j].Literal? ==> given == stored == ins.slots[j].value
    ensures ins.slots[j].Bound? ==>
              var i := Number(ins.slots, j);
              && given == Text(if i == 0 then first else "b")
              && ((forall name :: !IsInserted(ins.table, i, name)) ==> stored == given)
              && forall name | IsInserted(ins.table, i, name) ::
                   stored == Text(Encrypt(s, draw(i), ins.table, first, name, given.text))
  {
    hide IsInsertion, SealedParams, QueryMutationOf, Encrypt, IsInserted, Number, StoredWell;
    InsertionLengths(sql, ins);
    var n := Number(ins.slots, |ins.slots|);
    var params := Probe(n, first);
    if ins.slots[id].Bound? {
      ProbeGives(ins, first, id);
    }
    rowId := ValueAsStr(Given(ins, params, id)).value;
    assert InsertedWell(s, draw, sql, ins, id, params);
    SealedKeepsLength(s, draw, sql, ins, params);
    given, stored := Given(ins, params, j), Given(ins, SealedParams(s, draw, params, sql).value, j);
    if ins.slots[j].Bound? {
      ProbeGives(ins, first, j);
      InsertionIsInsert(sql, ins);
      InsertSealsExactly(s, draw, params, sql, ins.table, Number(ins.slots, j));
    }
  }

  lemma ColumnIsPlainName(sql: string, ins: Insertion, j: nat)
    requires IsInsertion(sql, ins) && j < |ins.slots|
    ensures |ins.slots| == |ins.columns| && ':' !in ins.columns[j]
    ensures ins.slots[j].Literal? ==> !IsEnvelope(ins.slots[j].value)
  {
  }

  lemma TransparentNumbersAgree(s: Service, draw: Draw, sql: string, ins: Insertion, id: nat, j: nat)
    requires Ideal(s) && IsInsertion(sql, ins) && ins.table != "webhook_jobs" && id < |ins.slots| && j < |ins.slots|
    requires ins.slots[id].Literal? ==> ValueAsStr(ins.slots[id].value).Some?
    requires Transparent(s, draw, sql, ins, id)
    ensures |ins.slots| == |ins.columns| && NumbersAgree(ins, j)
  {
    hide IsInsertion, Transparent, Encrypt, Ideal, IsEncrypted, IsInserted, Number, StoredWell, ValueAsStr;
    ColumnIsPlainName(sql, ins, j);
    var column, i := ins.columns[j], Number(ins.slots, j);
    ShortIsPlain("a");
    ShortIsPlain("b");
    var rowId, given, stored := ProbeIsInserted(s, draw, sql, ins, id, "a", j);
    if ins.slots[j].Bound? {
      forall name
        ensures IsInserted(ins.table, i, name) ==> name == column && IsEncrypted(ins.table, name)
      {
        if IsInserted(ins.table, i, name) {
          InsertedIsEncrypted(ins.table, i, name);
          if name != column {
            SealedElsewhereIsNotWell(s, draw(i), ins.table, column, rowId, name, "a", given.text);
          }
        }
      }
    }
    if IsEncrypted(ins.table, column) && given == stored && given.Text? && !IsEnvelope(given) {
      PlainIsNotWell(s, ins.table, column, rowId, given);
    }
  }

  lemma TransparentIdIsFirst(s: Service, draw: Draw, sql: string, ins: Insertion, id: nat, j: nat)
    requires Ideal(s) && IsInsertion(sql, ins) && ins.table != "webhook_jobs" && id < |ins.slots| == |ins.columns|
    requires ins.slots[id].Literal? ==> ValueAsStr(ins.slots[id].value).Some?
    requires Transparent(s, draw, sql, ins, id)
    requires j < |ins.slots| && ins.slots[j].Bound? && IsEncrypted(ins.table, ins.columns[j])
    ensures ins.slots[id].Bound? && Number(ins.slots, id) == 0
  {
    hide IsInsertion, Transparent, Encrypt, Ideal, IsEncrypted, IsInserted, Number, StoredWell, ValueAsStr;
    TransparentNumbersAgree(s, draw, sql, ins, id, j);
    ColumnIsPlainName(sql, ins, j);
    var column, i := ins.columns[j], Number(ins.slots, j);
    InsertedIsEncrypted(ins.table, i, column);
    ShortIsPlain("b");
    var first := match ins.slots[id] case Literal(_, value) => ValueAsStr(value).value + "b" case Bound => "a";
    var rowId, given, stored := ProbeIsInserted(s, draw, sql, ins, id, first, j);
    if !(ins.slots[id].Bound? && Number(ins.slots, id) == 0) {
      assert rowId != first by {
        assert ins.slots[id].Literal? ==> |first| == |rowId| + 1;
      }
      SealedElsewhereIsNotWell(s, draw(i), ins.table, column, rowId, column, first, given.text);
    }
  }

  /** An INSERT is transparent, for all parameters, if and only if its column list agrees with the numbers
      of the sealed parameters and begins its parameters with the id. */
  lemma InsertIsTransparentExactly(s: Service, draw: Draw, sql: string, ins: Insertion, id: nat)
    requires Ideal(s) && IsInsertion(sql, ins) && ins.table != "webhook_jobs"
    requires id < |ins.slots| == |ins.columns| && ins.columns[id] == "id"
    requires ins.slots[id].Literal? ==> ValueAsStr(ins.slots[id].value).Some?
    ensures Transparent(s, draw, sql, ins, id) <==> Aligned(ins, id)
  {
    hide IsInsertion, Transparent, Ideal, IsEncrypted, NumbersAgree, Number, ValueAsStr;
    if Aligned(ins, id) {
      AlignedIsTransparent(s, draw, sql, ins, id);
    }
    if Transparent(s, draw, sql, ins, id) {
      forall j | 0 <= j < |ins.slots|
        ensures NumbersAgree(ins, j)
      {
        TransparentNumbersAgree(s, draw, sql, ins, id, j);
      }
      if j: nat :| j < |ins.slots| && ins.slots[j].Bound? && IsEncrypted(ins.table, ins.columns[j]) {
        TransparentIdIsFirst(s, draw, sql, ins, id, j);
      }
    }
  }

  // ----- The statements of the program

  function Bounds(n: nat): (slots: seq<Slot>)
    ensures |slots| == n && forall i | 0 <= i < n :: slots[i] == Bound
  {
    if n == 0 then [] else Bounds(n - 1) + [Bound]
  }

  lemma {:induction false} AllAreBound(slots: seq<Slot>, j: nat)
    requires j <= |slots| && forall i | 0 <= i < j :: slots[i].Bound?
    ensures Number(slots, j) == j
  {
    if j > 0 {
      AllAreBound(slots, j - 1);
    }
  }

  const THREAD_COLUMNS := ["id", "channel_id", "creator_account_id", "title", "name_key", "body",
                           "last_activity_at", "created_at", "updated_at"]
  const COMMENT_COLUMNS := ["id", "thread_id", "channel_id", "author_account_id", "obj_index", "body",
                            "created_at", "updated_at"]
  const MESSAGE_COLUMNS := ["id", "conversation_id", "author_account_id", "obj_index", "body", "created_at", "updated_at"]
  const NOTIFICATION_COLUMNS := ["id", "account_id", "actor_account_id", "kind", "source_kind", "source_id", "channel_id",
                                 "thread_id", "conversation_id", "title", "body", "created_at"]

  /** Which of the columns are encrypted, and by which numbers they are sealed. */
  ghost predicate ListsInserted(table: string, columns: seq<string>) {
    forall j, name | 0 <= j < |columns| :: IsInserted(table, j, name) <==> name == columns[j] && IsEncrypted(table, name)
  }

  lemma BoundListIsAligned(table: string, columns: seq<string>, rest: string)
    requires columns != [] && ListsInserted(table, columns)
    ensures Aligned(Insertion(table, columns, Bounds(|columns|), rest), 0)
  {
    hide IsInserted, IsEncrypted;
    var ins := Insertion(table, columns, Bounds(|columns|), rest);
    forall j | 0 <= j < |columns|
      ensures NumbersAgree(ins, j)
    {
      AllAreBound(ins.slots, j);
    }
  }

  lemma OtherName(table: string, name: string)
    requires name != [] && name[0] !in {'b', 'p'} && (name[0] == 't' ==> |name| != 5)
    ensures !IsEncrypted(table, name)
  {
  }

  lemma CommentsAgree()
    ensures ListsInserted("comments", COMMENT_COLUMNS)
  {
    assert IsEncrypted("comments", "body");
    forall j | 0 <= j < 8 && j != 5
      ensures !IsEncrypted("comments", COMMENT_COLUMNS[j])
    {
      OtherName("comments", COMMENT_COLUMNS[j]);
    }
  }

  lemma MessagesAgree()
    ensures ListsInserted("conversation_messages", MESSAGE_COLUMNS)
  {
    assert IsEncrypted("conversation_messages", "body");
    forall j | 0 <= j < 7 && j != 4
      ensures !IsEncrypted("conversation_messages", MESSAGE_COLUMNS[j])
    {
      OtherName("conversation_messages", MESSAGE_COLUMNS[j]);
    }
  }

  lemma NotificationsAgree()
    ensures ListsInserted("notifications", NOTIFICATION_COLUMNS)
  {
    assert IsEncrypted("notifications", "title") && IsEncrypted("notifications", "body");
    forall j | 0 <= j < 12 && j != 9 && j != 10
      ensures !IsEncrypted("notifications", NOTIFICATION_COLUMNS[j])
    {
      OtherName("notifications", NOTIFICATION_COLUMNS[j]);
    }
  }

  /** The program's inserts of comments, messages and notifications agree with the sealed numbers. */
  lemma OthersAreAligned()
    ensures Aligned(Insertion("comments", COMMENT_COLUMNS, Bounds(8), ""), 0)
    ensures Aligned(Insertion("conversation_messages", MESSAGE_COLUMNS, Bounds(7), ""), 0)
    ensures Aligned(Insertion("notifications", NOTIFICATION_COLUMNS, Bounds(12), ""), 0)
  {
    hide IsInserted, IsEncrypted, ListsInserted, Aligned;
    CommentsAgree();
    MessagesAgree();
    NotificationsAgree();
    BoundListIsAligned("comments", COMMENT_COLUMNS, "");
    BoundListIsAligned("conversation_messages", MESSAGE_COLUMNS, "");
    BoundListIsAligned("notifications", NOTIFICATION_COLUMNS, "");
  }

  lemma FirstNames()
    ensures IsName("threads") && IsName("id") && IsName("channel_id") && IsName("creator_account_id")
  {
  }

  lemma MiddleNames()
    ensures IsName("title") && IsName("name_key") && IsName("body")
  {
  }

  lemma LastNames()
    ensures IsName("last_activity_at") && IsName("created_at") && IsName("updated_at")
  {
  }

  lemma ThreadsIsInsertion(sql: string)
    requires Normalize(sql) == InsertText(Insertion("threads", THREAD_COLUMNS, Bounds(9), ""))
    ensures IsInsertion(sql, Insertion("threads", THREAD_COLUMNS, Bounds(9), ""))
  {
    hide IsName, Normalize, InsertText;
    FirstNames();
    MiddleNames();
    LastNames();
  }

  lemma ThreadColumns()
    ensures |THREAD_COLUMNS| == 9 && THREAD_COLUMNS[4] == "name_key" && THREAD_COLUMNS[5] == "body"
    ensures IsInserted("threads", 4, "body") && THREAD_COLUMNS[4] != "body"
  {
  }

  /** Its insert of threads lists a key between title and body: the key is sealed as a body and cannot be
      read, and the body stays plaintext. */
  lemma ThreadInsertSealsTheKey(s: Service, draw: Draw, params: seq<Value>, sql: string, row: DbRow)
    requires Ideal(s) && Normalize(sql) == InsertText(Insertion("threads", THREAD_COLUMNS, Bounds(9), ""))
    requires |params| == 9 && params[4].Text? && !IsEnvelope(params[4])
    requires row.encryption == Some(s) && ValueAsStr(params[0]) == Some(RowId(row))
    ensures !Aligned(Insertion("threads", THREAD_COLUMNS, Bounds(9), ""), 0)
    ensures var ins, sealed := Insertion("threads", THREAD_COLUMNS, Bounds(9), ""), SealedParams(s, draw, params, sql);
            && sealed.Some? && |sealed.value| == 9
            && Given(ins, sealed.value, 4) != params[4]
            && DecryptValue(row, "name_key", Given(ins, sealed.value, 4)) == Undecryptable
            && Given(ins, params, 5) == Given(ins, sealed.value, 5) == params[5]
  {
    hide IsInsertion, SealedParams, QueryMutationOf, Encrypt, Ideal, DecryptValue, RowId, ValueAsStr;
    hide TablesFor, InsertText, Normalize;
    var ins := Insertion("threads", THREAD_COLUMNS, Bounds(9), "");
    ThreadsIsInsertion(sql);
    ThreadColumns();
    AllAreBound(ins.slots, 4);
    AllAreBound(ins.slots, 5);
    assert !NumbersAgree(ins, 4);
    InsertionIsInsert(sql, ins);
    InsertSealsExactly(s, draw, params, sql, "threads", 4);
    InsertSealsExactly(s, draw, params, sql, "threads", 5);
    InsertedIsEncrypted("threads", 4, "body");
    EncryptedNames("threads", "body");
    EncryptingTwice(s, draw(4), draw(4), "threads", RowId(row), "body", params[4].text);
    KeyIsAnotherName();
    StoredIsReadBackExactly(s, draw(4), "threads", RowId(row), "body", params[4].text, row, "name_key");
  }

  lemma KeyIsAnotherName()
    ensures ':' !in "name_key" && "name_key" != "body"
  {
  }

  lemma {:induction false} LiteralsAreNotNumbered(slots: seq<Slot>, j: nat)
    requires j <= |slots|
    ensures Number(slots, j) <= j && ((exists k :: 0 <= k < j && slots[k].Literal?) ==> Number(slots, j) < j)
  {
    if j > 0 {
      LiteralsAreNotNumbered(slots, j - 1);
    }
  }

  lemma SealedOnce(table: string, i: nat, j: nat, column: string)
    requires IsInserted(table, i, column) && IsInserted(table, j, column)
    ensures i == j
  {
  }

  /** A literal moves the numbers behind it: an encrypted column in the place where its number would be
      without literals is not the one that is sealed. So it is in the inserts that fill a benchmark
      database. */
  lemma LiteralsMoveNumbers(ins: Insertion, id: nat, k: nat, j: nat)
    requires k < j < |ins.slots| == |ins.columns| && id < |ins.slots|
    requires ins.slots[k].Literal? && ins.slots[j].Bound? && IsInserted(ins.table, j, ins.columns[j])
    ensures !Aligned(ins, id)
  {
    hide IsInserted, IsEncrypted, Number;
    LiteralsAreNotNumbered(ins.slots, j);
    InsertedIsEncrypted(ins.table, j, ins.columns[j]);
    if IsInserted(ins.table, Number(ins.slots, j), ins.columns[j]) {
      SealedOnce(ins.table, Number(ins.slots, j), j, ins.columns[j]);
    }
    assert !NumbersAgree(ins, j);
  }
}
