/** The `chat_message` table (models/chat_messages.py): one row per message, keyed by a composite id. */
module ChatMessages {
  import opened Basics
  import opened Forest
  import opened History

  datatype Row = Row(chatId: Id, parentId: Option<Id>, role: string, fields: map<string, string>)

  type Rows = map<string, Row>

  /** `f'{chat_id}-{message_id}'`. */
  function Key(chat: Id, id: Id): (r: string)
    ensures |r| == |chat| + 1 + |id|
    ensures r[..|chat| + 1] == chat + "-" && r[|chat| + 1..] == id
  {
    chat + "-" + id
  }

  predicate HasPrefix(key: string, chat: Id) {
    |chat| + 1 <= |key| && key[..|chat| + 1] == chat + "-"
  }

  /** The message id behind a row key; a key without the chat's prefix stands for itself. */
  function Strip(chat: Id, key: string): (r: Id)
    ensures HasPrefix(key, chat) ==> key == Key(chat, r)
  {
    if HasPrefix(key, chat) then key[|chat| + 1..] else key
  }

  lemma KeyInjective(chat: Id, a: Id, b: Id)
    requires Key(chat, a) == Key(chat, b)
    ensures a == b
  {
  }

  /** Keys of different chats can only meet if one chat id with its dash begins the other key. */
  lemma KeysOfEqualLengthChatsApart(chat: Id, other: Id, id: Id)
    requires |chat| == |other| && HasPrefix(Key(other, id), chat)
    ensures chat == other
  {
    var k := Key(other, id);
    assert k[..|chat| + 1][..|chat|] == (chat + "-")[..|chat|] == chat;
    assert k[..|other| + 1][..|other|] == (other + "-")[..|other|] == other;
  }

  /** With chat ids of different lengths two chats can claim one row. */
  lemma KeysCanCollide(chat: Id, a: Id, b: Id)
    ensures Key(chat, a + "-" + b) == Key(chat + "-" + a, b)
  {
    assert chat + "-" + (a + "-" + b) == chat + "-" + a + "-" + b;
  }

  lemma PrefixOfLonger(chat: Id, other: Id, a: Id, b: Id)
    requires |chat| < |other| && Key(chat, a) == Key(other, b)
    ensures HasPrefix(other, chat)
  {
    var k := Key(other, b);
    assert k[..|chat| + 1] == chat + "-";
    assert other == k[..|other| + 1][..|other|] && other[..|chat| + 1] == k[..|chat| + 1];
  }

  lemma PrefixMeets(chat: Id, other: Id)
    requires HasPrefix(other, chat)
    ensures Key(chat, Strip(chat, other) + "-x") == Key(other, "x")
  {
    assert other == chat + "-" + Strip(chat, other);
  }

  /** Two chats can claim one row exactly when they are the same or one id begins with the other and a dash. */
  lemma KeysMeetIff(chat: Id, other: Id)
    ensures (exists a, b :: a != "" && b != "" && Key(chat, a) == Key(other, b)) <==>
            chat == other || HasPrefix(other, chat) || HasPrefix(chat, other)
  {
    if a, b :| a != "" && b != "" && Key(chat, a) == Key(other, b) {
      if |chat| < |other| {
        PrefixOfLonger(chat, other, a, b);
      } else if |other| < |chat| {
        PrefixOfLonger(other, chat, b, a);
      } else {
        KeysOfEqualLengthChatsApart(chat, other, b);
      }
    }
    if chat == other {
      assert Key(chat, "x") == Key(other, "x");
    } else if HasPrefix(other, chat) {
      PrefixMeets(chat, other);
    } else if HasPrefix(chat, other) {
      PrefixMeets(other, chat);
    }
  }

  /** The row of a message after it is written: a `parentId` or `role` the message does not have is left alone,
      or takes its default in a new row. */
  function RowWritten(rows: Rows, chat: Id, id: Id, m: Message, hasParent: bool, hasRole: bool): (r: Row) {
    var key := Key(chat, id);
    if key in rows then
      rows[key].(parentId := if hasParent then m.parentId else rows[key].parentId,
                 role := if hasRole then m.role else rows[key].role,
                 fields := rows[key].fields + m.fields)
    else Row(chat, if hasParent then m.parentId else None, if hasRole then m.role else "user", m.fields)
  }

  function RowAfter(rows: Rows, chat: Id, id: Id, m: Message): (r: Row) {
    RowWritten(rows, chat, id, m, true, m.role != "")
  }

  /** `ChatMessageTable.upsert_message` for a message with a `parentId`, and a `role` unless it is falsy. */
  function RowUpserted(rows: Rows, chat: Id, id: Id, m: Message): (r: Rows) {
    rows[Key(chat, id) := RowAfter(rows, chat, id, m)]
  }

  /** `delete_message_ids_by_chat_id`: the chat's rows among the composite ids. */
  function RowsWithout(rows: Rows, chat: Id, ids: set<Id>): (r: Rows) {
    map k | k in rows && !(rows[k].chatId == chat && k in (set i | i in ids :: Key(chat, i))) :: rows[k]
  }

  /** A deletion takes exactly the chat's own rows among those ids: a row another chat holds under such an id stays. */
  lemma DeletesOwnRows(rows: Rows, chat: Id, ids: set<Id>, k: string)
    ensures var r := RowsWithout(rows, chat, ids);
            && (k in r <==> k in rows && (rows[k].chatId == chat ==> forall id :: id in ids ==> k != chat + "-" + id))
            && (k in r ==> r[k] == rows[k])
  {
    if exists id :: id in ids && k == chat + "-" + id {
      var id :| id in ids && k == chat + "-" + id;
      assert k == Key(chat, id);
    }
  }

  ghost predicate NoForeign(rows: Rows, chat: Id) {
    forall k :: k in rows && HasPrefix(k, chat) ==> rows[k].chatId == chat
  }

  ghost function RowsOf(rows: Rows, chat: Id): (r: set<string>) {
    set k | k in rows && rows[k].chatId == chat
  }

  /** Every field of `b` is in `a`, with its value. */
  ghost predicate Holds(a: map<string, string>, b: map<string, string>) {
    forall f :: f in b ==> f in a && a[f] == b[f]
  }

  /** The row shows the message: its parent, its role if it has one, and all its fields. */
  ghost predicate Shows(row: Row, m: Message) {
    && row.parentId == m.parentId && (m.role != "" ==> row.role == m.role) && Holds(row.fields, m.fields)
  }

  /** The rows of a chat are those of its messages, and each shows its message. */
  ghost predicate Mirrors(rows: Rows, chat: Id, at: map<Id, Message>) {
    && (forall k :: k in RowsOf(rows, chat) ==> HasPrefix(k, chat) && Strip(chat, k) in at)
    && (forall id :: id in at ==> Key(chat, id) in RowsOf(rows, chat) && Shows(rows[Key(chat, id)], at[id]))
  }

  /** What a write leaves in the row, field by field: what the message has reads back, the rest is as it was, or a
      default in a new row. */
  lemma RowTakesMessage(rows: Rows, chat: Id, id: Id, m: Message, hasParent: bool, hasRole: bool)
    ensures var key, r := chat + "-" + id, RowWritten(rows, chat, id, m, hasParent, hasRole);
            && (forall f :: f in m.fields ==> f in r.fields && r.fields[f] == m.fields[f])
            && (forall f :: f !in m.fields ==>
                  (f in r.fields <==> key in rows && f in rows[key].fields)
                  && (f in r.fields ==> r.fields[f] == rows[key].fields[f]))
            && (hasParent ==> r.parentId == m.parentId) && (hasRole ==> r.role == m.role)
            && (!hasParent ==> r.parentId == if key in rows then rows[key].parentId else None)
            && (!hasRole ==> r.role == if key in rows then rows[key].role else "user")
            && r.chatId == if key in rows then rows[key].chatId else chat
  {
  }

  // ----- get_messages_map_by_chat_id -----

  /** The rows of the chat in some order, each once. */
  ghost predicate Listing(rows: Rows, chat: Id, order: seq<string>) {
    NoDup(order) && (forall k :: k in order <==> k in RowsOf(rows, chat))
  }

  function RowMessage(chat: Id, key: string, row: Row): (r: Message) {
    Message(row.parentId, [], row.role, Strip(chat, key), 0, "", row.fields)
  }

  function RowDict(chat: Id, order: seq<string>, rows: Rows): (r: Messages)
    requires forall k :: k in order ==> k in rows
  {
    if order == [] then Dict([], map[])
    else
      var k := order[|order| - 1];
      RowDict(chat, order[..|order| - 1], rows).Put(Strip(chat, k), RowMessage(chat, k, rows[k]))
  }

  function Naming(at: map<Id, Message>, p: Id): (r: set<Id>) {
    set c | c in at && p != "" && at[c].parentId == Some(p)
  }

  /** Child lists rebuilt from the parent links of the first keys. */
  function WithChildren(m: Messages, keys: seq<Id>): (r: map<Id, Message>) {
    map k | k in m.at :: m.at[k].(childrenIds := Within(keys, Naming(m.at, k)))
  }

  function RowMap(chat: Id, order: seq<string>, rows: Rows): (r: Messages)
    requires forall k :: k in order ==> k in rows
  {
    var d := RowDict(chat, order, rows);
    Dict(d.keys, WithChildren(d, d.keys))
  }

  lemma {:induction false} RowDictValid(chat: Id, order: seq<string>, rows: Rows)
    requires forall k :: k in order ==> k in rows
    ensures RowDict(chat, order, rows).Valid()
    ensures forall id :: id in RowDict(chat, order, rows).at ==> RowDict(chat, order, rows).at[id].childrenIds == []
  {
    if order != [] {
      var k := order[|order| - 1];
      RowDictValid(chat, order[..|order| - 1], rows);
      PutValid(RowDict(chat, order[..|order| - 1], rows), Strip(chat, k), RowMessage(chat, k, rows[k]));
    }
  }

  /** The two loops that fill the map from the rows and rebuild `childrenIds`. */
  method BuildMap(chat: Id, order: seq<string>, rows: Rows) returns (m: Messages)
    requires forall k :: k in order ==> k in rows
    ensures m == RowMap(chat, order, rows)
  {
    m := Dict([], map[]);
    var n := 0;
    while n < |order|
      invariant 0 <= n <= |order|
      invariant m == RowDict(chat, order[..n], rows)
    {
      assert order[..n + 1][..n] == order[..n];
      m := m.Put(Strip(chat, order[n]), RowMessage(chat, order[n], rows[order[n]]));
      n := n + 1;
    }
    assert order[..n] == order;
    RowDictValid(chat, order, rows);
    m := LinkChildren(m);
  }

  lemma LinkOneMore(d: Messages, keys: seq<Id>, id: Id)
    requires id in d.at
    ensures var at, parent := WithChildren(d, keys), d.at[id].parentId;
            WithChildren(d, keys + [id]) ==
            if parent.Some? && parent.value != "" && parent.value in at
            then at[parent.value := at[parent.value].(childrenIds := at[parent.value].childrenIds + [id])]
            else at
  {
    var at, next := WithChildren(d, keys), WithChildren(d, keys + [id]);
    forall k | k in d.at
      ensures next[k] == if id in Naming(d.at, k) then at[k].(childrenIds := at[k].childrenIds + [id]) else at[k]
    {
      WithinConcat(keys, [id], Naming(d.at, k));
    }
  }

  method LinkChildren(d: Messages) returns (m: Messages)
    requires d.Valid() && forall id :: id in d.at ==> d.at[id].childrenIds == []
    ensures m == Dict(d.keys, WithChildren(d, d.keys))
  {
    var at := d.at;
    var n := 0;
    assert d.keys[..0] == [] && at == WithChildren(d, []);
    while n < |d.keys|
      invariant 0 <= n <= |d.keys|
      invariant at == WithChildren(d, d.keys[..n])
    {
      var id := d.keys[n];
      NextKey(d, n);
      LinkOneMore(d, d.keys[..n], id);
      var parent := at[id].parentId;
      if parent.Some? && parent.value != "" && parent.value in at {
        var p := at[parent.value];
        if id !in p.childrenIds {
          at := at[parent.value := p.(childrenIds := p.childrenIds + [id])];
        }
      }
      n := n + 1;
    }
    assert d.keys[..n] == d.keys;
    m := Dict(d.keys, at);
  }

  lemma NextKey(d: Messages, n: nat)
    requires d.Valid() && n < |d.keys|
    ensures d.keys[n] in d.at && d.keys[n] !in d.keys[..n] && d.keys[..n + 1] == d.keys[..n] + [d.keys[n]]
  {
  }

  // ----- the mirror -----

  lemma {:induction false} RowDictMirrors(chat: Id, order: seq<string>, rows: Rows)
    requires forall k :: k in order ==> k in rows && HasPrefix(k, chat)
    ensures var d := RowDict(chat, order, rows);
            forall id :: id in d.at <==> Key(chat, id) in order
    ensures var d := RowDict(chat, order, rows);
            forall id :: id in d.at ==>
              var row := rows[Key(chat, id)];
              && d.at[id].parentId == row.parentId && d.at[id].role == row.role && d.at[id].fields == row.fields
              && d.at[id].id == id
  {
    if order != [] {
      var k := order[|order| - 1];
      var rest := order[..|order| - 1];
      RowDictMirrors(chat, rest, rows);
      assert order == rest + [k];
      forall id ensures Key(chat, id) == k <==> id == Strip(chat, k) {
      }
    }
  }

  /** The message read for `id` is `m` again: its id, parent, role and every field. */
  ghost predicate ReadsBack(r: Message, id: Id, m: Message) {
    && r.id == id && r.parentId == m.parentId && (m.role != "" ==> r.role == m.role) && Holds(r.fields, m.fields)
  }

  /** The map rebuilt from rows that mirror a tree has its messages, with their parents, roles and fields, and each
      child list is a permutation of the tree's. */
  lemma RebuiltFromMirror(rows: Rows, chat: Id, order: seq<string>, at: map<Id, Message>)
    requires Mirrors(rows, chat, at) && Linked(at) && "" !in at && Listing(rows, chat, order)
    ensures var m := RowMap(chat, order, rows);
            && m.Valid() && m.at.Keys == at.Keys
            && forall id :: id in at ==> ReadsBack(m.at[id], id, at[id])
                                         && multiset(m.at[id].childrenIds) == multiset(at[id].childrenIds)
  {
    var d := RowDict(chat, order, rows);
    RowDictValid(chat, order, rows);
    RowDictMirrors(chat, order, rows);
    forall id ensures id in d.at <==> id in at {
    }
    forall id | id in at
      ensures multiset(Within(d.keys, Naming(d.at, id))) == multiset(at[id].childrenIds)
    {
      ChildrenPermuted(d, at, id);
    }
  }

  lemma ChildrenPermuted(d: Messages, at: map<Id, Message>, id: Id)
    requires d.Valid() && d.at.Keys == at.Keys && Linked(at) && "" !in at && id in at
    requires forall c :: c in at ==> d.at[c].parentId == at[c].parentId
    ensures multiset(Within(d.keys, Naming(d.at, id))) == multiset(at[id].childrenIds)
  {
    WithinNoDup(d.keys, Naming(d.at, id));
    SameElemsPermutation(Within(d.keys, Naming(d.at, id)), at[id].childrenIds);
  }

  /** The child lists rebuilt from any map of valid keys are its exact, duplicate-free inverse. */
  lemma RebuiltLinks(d: Messages)
    requires d.Valid() && "" !in d.at
    ensures Linked(WithChildren(d, d.keys))
  {
    var at := WithChildren(d, d.keys);
    forall k | k in at ensures NoDup(at[k].childrenIds) {
      WithinNoDup(d.keys, Naming(d.at, k));
    }
  }

  /** Whatever the child lists of the history, rows that mirror acyclic parents give back a tree over them. */
  lemma RowsRebuildTree(rows: Rows, chat: Id, order: seq<string>, at: map<Id, Message>)
    requires Mirrors(rows, chat, at) && Acyclic(ParentsOf(at)) && "" !in at && Listing(rows, chat, order)
    ensures var m := RowMap(chat, order, rows);
            && m.Valid() && Tree(m.at) && m.at.Keys == at.Keys
            && forall id :: id in at ==> m.at[id].parentId == at[id].parentId
  {
    var d := RowDict(chat, order, rows);
    RowDictOfMirror(rows, chat, order, at);
    RebuiltTree(d, at);
  }

  lemma RebuiltTree(d: Messages, at: map<Id, Message>)
    requires d.Valid() && d.at.Keys == at.Keys && forall id :: id in at ==> d.at[id].parentId == at[id].parentId
    requires Acyclic(ParentsOf(at)) && "" !in at
    ensures var m := Dict(d.keys, WithChildren(d, d.keys));
            && m.Valid() && Tree(m.at) && m.at.Keys == at.Keys
            && forall id :: id in at ==> m.at[id].parentId == at[id].parentId
  {
    assert Acyclic(ParentsOf(WithChildren(d, d.keys))) by { RebuiltParents(d, at); }
    assert Linked(WithChildren(d, d.keys)) by { RebuiltLinks(d); }
  }

  /** A read gives back what the rows hold: for the last listed row of an id, the map has that id with the row's
      role, parent and fields. */
  lemma {:induction false} RowReadBack(chat: Id, order: seq<string>, rows: Rows, n: nat, id: Id)
    requires (forall k :: k in order ==> k in rows) && n < |order|
    requires order[n] == chat + "-" + id || (order[n] == id && !(chat + "-" <= id))
    requires forall j :: n < j < |order| ==> order[j] != chat + "-" + id && (order[j] == id ==> chat + "-" <= id)
    ensures var m, row := RowMap(chat, order, rows).at, rows[order[n]];
            && id in m && m[id].id == id
            && m[id].role == row.role && m[id].fields == row.fields && m[id].parentId == row.parentId
  {
    RowDictReadBack(chat, order, rows, n, id);
  }

  lemma {:induction false} RowDictReadBack(chat: Id, order: seq<string>, rows: Rows, n: nat, id: Id)
    requires (forall k :: k in order ==> k in rows) && n < |order|
    requires order[n] == chat + "-" + id || (order[n] == id && !(chat + "-" <= id))
    requires forall j :: n < j < |order| ==> order[j] != chat + "-" + id && (order[j] == id ==> chat + "-" <= id)
    ensures var m, row := RowDict(chat, order, rows).at, rows[order[n]];
            && id in m && m[id].id == id
            && m[id].role == row.role && m[id].fields == row.fields && m[id].parentId == row.parentId
  {
    var last := |order| - 1;
    var k := order[last];
    assert k in order && forall x :: x in order[..last] ==> x in order;
    if n == last {
      StripExact(chat, k, id);
    } else {
      RowDictReadBack(chat, order[..last], rows, n, id);
      StripOther(chat, k, id);
    }
  }

  lemma PrefixMeans(key: string, chat: Id)
    ensures HasPrefix(key, chat) <==> chat + "-" <= key
  {
  }

  lemma StripExact(chat: Id, key: string, id: Id)
    requires key == chat + "-" + id || (key == id && !(chat + "-" <= id))
    ensures Strip(chat, key) == id
  {
    PrefixMeans(key, chat);
    assert key == chat + "-" + id ==> key[|chat| + 1..] == id;
  }

  lemma StripOther(chat: Id, key: string, id: Id)
    requires key != chat + "-" + id && (key == id ==> chat + "-" <= id)
    ensures Strip(chat, key) != id
  {
    PrefixMeans(key, chat);
    assert HasPrefix(key, chat) ==> key == chat + "-" + Strip(chat, key);
  }

  /** The map has its messages in row order, and each lists its children in that order. */
  lemma ReadChildOrder(chat: Id, order: seq<string>, rows: Rows, p: Id, a: Id, b: Id)
    requires (forall k :: k in order ==> k in rows) && p in RowMap(chat, order, rows).at
    ensures var m := RowMap(chat, order, rows);
            Before(m.at[p].childrenIds, a, b) <==>
            && p != "" && a in m.at && b in m.at && m.at[a].parentId == Some(p) && m.at[b].parentId == Some(p)
            && Before(m.keys, a, b)
  {
    var d := RowDict(chat, order, rows);
    WithinBefore(d.keys, Naming(d.at, p), a, b);
  }

  lemma {:induction false} ReadKeys(chat: Id, order: seq<string>, rows: Rows)
    requires NoDup(order) && forall k :: k in order ==> k in rows && chat + "-" <= k
    ensures var keys := RowMap(chat, order, rows).keys;
            |keys| == |order| && forall i :: 0 <= i < |order| ==> order[i] == chat + "-" + keys[i]
  {
    if order != [] {
      var last := |order| - 1;
      assert order[last] in order && forall x :: x in order[..last] ==> x in order;
      ReadKeys(chat, order[..last], rows);
      NextReadKey(chat, order, rows, RowDict(chat, order[..last], rows).keys);
    }
  }

  lemma NextReadKey(chat: Id, order: seq<string>, rows: Rows, keys: seq<Id>)
    requires NoDup(order) && order != [] && forall k :: k in order ==> k in rows && chat + "-" <= k
    requires |keys| == |order| - 1 && forall i :: 0 <= i < |keys| ==> order[i] == chat + "-" + keys[i]
    requires keys == RowDict(chat, order[..|order| - 1], rows).keys
    ensures var k := order[|order| - 1];
            RowDict(chat, order, rows).keys == keys + [Strip(chat, k)] && k == chat + "-" + Strip(chat, k)
  {
    var last := |order| - 1;
    var k := order[last];
    assert k in order && k[..|chat| + 1] == chat + "-";
    RowDictValid(chat, order[..last], rows);
    forall i | 0 <= i < last ensures keys[i] != Strip(chat, k) {
      assert order[i] == chat + "-" + keys[i] && order[i] != k;
    }
  }

  lemma RowDictOfMirror(rows: Rows, chat: Id, order: seq<string>, at: map<Id, Message>)
    requires Mirrors(rows, chat, at) && Listing(rows, chat, order)
    ensures var d := RowDict(chat, order, rows);
            d.Valid() && d.at.Keys == at.Keys && forall id :: id in at ==> d.at[id].parentId == at[id].parentId
  {
    RowDictValid(chat, order, rows);
    RowDictMirrors(chat, order, rows);
    forall id ensures id in RowDict(chat, order, rows).at <==> id in at {
    }
  }

  lemma RebuiltParents(d: Messages, at: map<Id, Message>)
    requires d.at.Keys == at.Keys && forall id :: id in at ==> d.at[id].parentId == at[id].parentId
    ensures ParentsOf(WithChildren(d, d.keys)) == ParentsOf(at)
  {
  }

  lemma RowAfterShows(rows: Rows, chat: Id, id: Id, m: Message)
    requires NoForeign(rows, chat)
    ensures Shows(RowAfter(rows, chat, id, m), m) && RowAfter(rows, chat, id, m).chatId == chat
  {
    assert HasPrefix(Key(chat, id), chat);
  }

  lemma UpsertKeepsMirror(rows: Rows, chat: Id, at: map<Id, Message>, id: Id, m: Message)
    requires Mirrors(rows, chat, at) && NoForeign(rows, chat)
    ensures Mirrors(RowUpserted(rows, chat, id, m), chat, at[id := m])
    ensures NoForeign(RowUpserted(rows, chat, id, m), chat)
  {
    var r := RowUpserted(rows, chat, id, m);
    RowAfterShows(rows, chat, id, m);
    forall other | other in at && other != id
      ensures Key(chat, other) in RowsOf(r, chat) && Shows(r[Key(chat, other)], at[other])
    {
      assert Key(chat, other) != Key(chat, id) by {
        if Key(chat, other) == Key(chat, id) { KeyInjective(chat, other, id); }
      }
      assert Key(chat, other) in RowsOf(rows, chat);
    }
    assert HasPrefix(Key(chat, id), chat) && Strip(chat, Key(chat, id)) == id;
  }

  /** Where the history has no parent for a message, writing it without the key `parentId` does exactly what
      writing null does. */
  lemma AbsentParentIsNull(rows: Rows, chat: Id, at: map<Id, Message>, id: Id, m: Message, hasRole: bool)
    requires Mirrors(rows, chat, at) && NoForeign(rows, chat)
    requires m.parentId.None? && (id in at ==> at[id].parentId.None?)
    ensures RowWritten(rows, chat, id, m, false, hasRole) == RowWritten(rows, chat, id, m, true, hasRole)
  {
    var key := Key(chat, id);
    if key in rows {
      assert HasPrefix(key, chat) && key in RowsOf(rows, chat) && Strip(chat, key) == id;
    }
  }

  /** An upsert or deletion for one chat leaves every row of the other chats alone. */
  lemma OtherChatsUntouched(rows: Rows, chat: Id, id: Id, m: Message, ids: set<Id>, k: string)
    requires NoForeign(rows, chat) && k in rows && rows[k].chatId != chat
    ensures k in RowUpserted(rows, chat, id, m) && RowUpserted(rows, chat, id, m)[k] == rows[k]
    ensures k in RowsWithout(rows, chat, ids) && RowsWithout(rows, chat, ids)[k] == rows[k]
  {
  }

  /** The table itself, edited row by row. */
  class ChatMessageTable {
    var rows: Rows

    /** `hasParent` and `hasRole` say whether the dictionary has these keys. */
    method UpsertMessage(chat: Id, id: Id, m: Message, hasParent: bool, hasRole: bool)
      modifies this
      ensures rows == old(rows)[Key(chat, id) := RowWritten(old(rows), chat, id, m, hasParent, hasRole)]
    {
      var key := Key(chat, id);
      if key in rows {
        var existing := rows[key];
        if hasRole {
          existing := existing.(role := m.role);
        }
        if hasParent {
          existing := existing.(parentId := m.parentId);
        }
        existing := existing.(fields := existing.fields + m.fields);
        rows := rows[key := existing];
      } else {
        rows := rows[key :=
          Row(chat, if hasParent then m.parentId else None, if hasRole then m.role else "user", m.fields)];
      }
    }

    method DeleteMessageIds(chat: Id, ids: set<Id>)
      modifies this
      ensures rows == RowsWithout(old(rows), chat, ids)
    {
      if ids == {} {
        assert RowsWithout(rows, chat, ids) == rows;
        return;
      }
      var gone := set k | k in rows && rows[k].chatId == chat && k in (set i | i in ids :: Key(chat, i));
      rows := rows - gone;
    }
  }
}
