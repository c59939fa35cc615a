/**
 * `INSERT ... ON CONFLICT` on a table held as a map. A write is a batch of
 * rows with distinct keys; `merge(old, new)` is what the conflict clause
 * leaves behind.
 */
module Upsert {
  import opened Wrappers

  function Put<K, V>(merge: (V, V) -> V, table: map<K, V>, write: map<K, V>): map<K, V> {
    table + map k | k in write :: if k in table then merge(table[k], write[k]) else write[k]
  }

  function PutAll<K, V>(merge: (V, V) -> V, table: map<K, V>, writes: seq<map<K, V>>): map<K, V> {
    if writes == [] then table
    else Put(merge, PutAll(merge, table, writes[..|writes| - 1]), writes[|writes| - 1])
  }

  /** One statement for one row. */
  function PutOne<K, V>(merge: (V, V) -> V, table: map<K, V>, k: K, v: V): map<K, V> {
    table[k := if k in table then merge(table[k], v) else v]
  }

  /** One statement for each of the keys. */
  function PutEach<K, V>(merge: (V, V) -> V, table: map<K, V>, write: map<K, V>, keys: seq<K>): map<K, V>
    requires forall i :: 0 <= i < |keys| ==> keys[i] in write
  {
    if keys == [] then table
    else
      var n := |keys| - 1;
      PutOne(merge, PutEach(merge, table, write, keys[..n]), keys[n], write[keys[n]])
  }

  lemma {:induction false} PutEachRow<K, V>(merge: (V, V) -> V, table: map<K, V>, write: map<K, V>, keys: seq<K>, k: K)
    requires forall i :: 0 <= i < |keys| ==> keys[i] in write
    requires forall i, j :: 0 <= i < j < |keys| ==> keys[i] != keys[j]
    ensures Row(PutEach(merge, table, write, keys), k) ==
            if k !in keys then Row(table, k)
            else if k in table then Some(merge(table[k], write[k])) else Some(write[k])
  {
    if keys != [] {
      var n := |keys| - 1;
      PutEachRow(merge, table, write, keys[..n], k);
      assert keys == keys[..n] + [keys[n]];
    }
  }

  /** Writing the rows one statement at a time is writing them together. */
  lemma PutEachIsPut<K(!new), V>(merge: (V, V) -> V, table: map<K, V>, write: map<K, V>, keys: seq<K>)
    requires forall k :: k in keys <==> k in write
    requires forall i, j :: 0 <= i < j < |keys| ==> keys[i] != keys[j]
    ensures forall i :: 0 <= i < |keys| ==> keys[i] in write
    ensures PutEach(merge, table, write, keys) == Put(merge, table, write)
  {
    assert forall i :: 0 <= i < |keys| ==> keys[i] in keys;
    var each, put := PutEach(merge, table, write, keys), Put(merge, table, write);
    forall k
      ensures (k in each <==> k in put) && (k in put ==> each[k] == put[k])
    {
      PutEachRow(merge, table, write, keys, k);
      PutRow(merge, table, write, k);
      assert Row(each, k) == Row(put, k);
    }
  }

  /** The clause lets the last write of a row win and keeps a row that is written over with itself. */
  ghost predicate Lawful<V(!new)>(merge: (V, V) -> V) {
    && (forall o, a, b :: merge(merge(o, a), b) == merge(o, b))
    && (forall a :: merge(a, a) == a)
  }

  /** `DO NOTHING` */
  function Keep<V>(o: V, n: V): V { o }

  /** `DO UPDATE` of every column that is not a key */
  function Replace<V>(o: V, n: V): V { n }

  // ----- One row through a run of writes -----

  ghost function Row<K, V>(table: map<K, V>, k: K): Option<V> {
    if k in table then Some(table[k]) else None
  }

  ghost function LastWrite<K, V>(writes: seq<map<K, V>>, k: K): Option<V> {
    if writes == [] then None
    else
      var w := writes[|writes| - 1];
      if k in w then Some(w[k]) else LastWrite(writes[..|writes| - 1], k)
  }

  lemma PutRow<K, V>(merge: (V, V) -> V, table: map<K, V>, write: map<K, V>, k: K)
    ensures Row(Put(merge, table, write), k) ==
            if k !in write then Row(table, k)
            else if k in table then Some(merge(table[k], write[k])) else Some(write[k])
  {}

  /** A row that is there ends as its last write merged into it. */
  lemma {:induction false} PutAllOverRow<K, V(!new)>(merge: (V, V) -> V, table: map<K, V>, writes: seq<map<K, V>>, k: K)
    requires Lawful(merge) && k in table
    ensures var last := LastWrite(writes, k);
      Row(PutAll(merge, table, writes), k) == Some(if last.Some? then merge(table[k], last.value) else table[k])
  {
    if writes != [] {
      var n := |writes| - 1;
      PutAllOverRow(merge, table, writes[..n], k);
      PutRow(merge, PutAll(merge, table, writes[..n]), writes[n], k);
    }
  }

  /** A row that is written ends as some row with the last write merged into it. */
  lemma {:induction false} PutAllRow<K, V(!new)>(merge: (V, V) -> V, table: map<K, V>, writes: seq<map<K, V>>, k: K)
    returns (base: Option<V>)
    requires Lawful(merge)
    ensures var last := LastWrite(writes, k);
      if last.Some? then base.Some? && Row(PutAll(merge, table, writes), k) == Some(merge(base.value, last.value))
      else Row(PutAll(merge, table, writes), k) == Row(table, k)
  {
    if writes == [] {
      base := None;
    } else {
      var n := |writes| - 1;
      var before := PutAll(merge, table, writes[..n]);
      PutRow(merge, before, writes[n], k);
      if k !in writes[n] {
        base := PutAllRow(merge, table, writes[..n], k);
      } else {
        base := if k in before then Some(before[k]) else Some(writes[n][k]);
      }
    }
  }

  /** The two runs write the same keys, and over any row they leave the same. */
  ghost predicate Agree<K(!new), V(!new)>(merge: (V, V) -> V, xs: seq<map<K, V>>, ys: seq<map<K, V>>) {
    && |xs| == |ys|
    && (forall i :: 0 <= i < |xs| ==> xs[i].Keys == ys[i].Keys)
    && (forall i, k, o :: 0 <= i < |xs| && k in xs[i] ==> merge(o, xs[i][k]) == merge(o, ys[i][k]))
  }

  lemma {:induction false} AgreeOnLast<K(!new), V(!new)>(merge: (V, V) -> V, xs: seq<map<K, V>>, ys: seq<map<K, V>>, k: K)
    requires Agree(merge, xs, ys)
    ensures var a, b := LastWrite(xs, k), LastWrite(ys, k);
      a.Some? == b.Some? && (a.Some? ==> forall o :: merge(o, a.value) == merge(o, b.value))
  {
    if xs != [] {
      var n := |xs| - 1;
      assert xs[n].Keys == ys[n].Keys;
      if k !in xs[n] {
        AgreeOnLast(merge, xs[..n], ys[..n], k);
      }
    }
  }

  /** Running the writes again, or an agreeing run of writes, changes no row. */
  lemma RerunIsStable<K(!new), V(!new)>(merge: (V, V) -> V, table: map<K, V>, xs: seq<map<K, V>>, ys: seq<map<K, V>>)
    requires Lawful(merge) && Agree(merge, xs, ys)
    ensures PutAll(merge, PutAll(merge, table, xs), ys) == PutAll(merge, table, xs)
  {
    var once := PutAll(merge, table, xs);
    var twice := PutAll(merge, once, ys);
    forall k
      ensures (k in twice <==> k in once) && (k in once ==> twice[k] == once[k])
    {
      AgreeOnLast(merge, xs, ys, k);
      var base := PutAllRow(merge, table, xs, k);
      var again := PutAllRow(merge, once, ys, k);
      if k in once {
        PutAllOverRow(merge, once, ys, k);
      }
      assert Row(twice, k) == Row(once, k);
    }
  }

  /** A run of writes after a run of writes is one run. */
  lemma {:induction false} PutAllAppend<K, V>(merge: (V, V) -> V, table: map<K, V>, xs: seq<map<K, V>>, ys: seq<map<K, V>>)
    ensures PutAll(merge, table, xs + ys) == PutAll(merge, PutAll(merge, table, xs), ys)
  {
    var all := xs + ys;
    if ys == [] {
      assert all == xs;
    } else {
      var n := |ys| - 1;
      PutAllAppend(merge, table, xs, ys[..n]);
      assert all[..|all| - 1] == xs + ys[..n] && all[|all| - 1] == ys[n];
    }
  }

  lemma PutAllOneMore<K, V>(merge: (V, V) -> V, table: map<K, V>, writes: seq<map<K, V>>, i: int)
    requires 0 <= i < |writes|
    ensures PutAll(merge, table, writes[..i + 1]) == Put(merge, PutAll(merge, table, writes[..i]), writes[i])
  {
    assert writes[..i + 1][..i] == writes[..i];
  }

  // ----- Columns after a run of writes -----

  /** A run of writes has exactly the stored and the written rows. */
  lemma {:induction false} PutAllKeys<K, V>(merge: (V, V) -> V, table: map<K, V>, writes: seq<map<K, V>>, k: K)
    ensures k in PutAll(merge, table, writes) <==> k in table || exists j :: 0 <= j < |writes| && k in writes[j]
  {
    if writes != [] {
      var n := |writes| - 1;
      PutAllKeys(merge, table, writes[..n], k);
      PutRow(merge, PutAll(merge, table, writes[..n]), writes[n], k);
      if j :| 0 <= j < n && k in writes[..n][j] {
        assert k in writes[j];
      }
      if j :| 0 <= j < |writes| && k in writes[j] {
        assert j < n ==> k in writes[..n][j];
      }
    }
  }

  /** The write is the first one of the row. */
  predicate FirstWrites<K(==), V>(writes: seq<map<K, V>>, k: K, j: nat) {
    j < |writes| && k in writes[j] && forall i :: 0 <= i < j ==> k !in writes[i]
  }

  /** The write is the last one of the row. */
  predicate LastWrites<K(==), V>(writes: seq<map<K, V>>, k: K, j: nat) {
    j < |writes| && k in writes[j] && forall i :: j < i < |writes| ==> k !in writes[i]
  }

  /** A column that the conflict clause leaves alone holds what was stored, or else what was written first. */
  lemma {:induction false} ColumnIsFirst<K, V(!new), C>(
    merge: (V, V) -> V, column: V -> C, table: map<K, V>, writes: seq<map<K, V>>, k: K, j: nat)
    requires (forall o, n :: column(merge(o, n)) == column(o)) && FirstWrites(writes, k, j)
    ensures k in PutAll(merge, table, writes)
    ensures column(PutAll(merge, table, writes)[k]) == column(if k in table then table[k] else writes[j][k])
  {
    var n := |writes| - 1;
    PutRow(merge, PutAll(merge, table, writes[..n]), writes[n], k);
    if j < n {
      ColumnIsFirst(merge, column, table, writes[..n], k, j);
    } else {
      NotWritten(merge, table, writes[..n], k);
    }
  }

  /** A column that the conflict clause overwrites holds what was written last. */
  lemma {:induction false} ColumnIsLast<K, V(!new), C>(
    merge: (V, V) -> V, column: V -> C, table: map<K, V>, writes: seq<map<K, V>>, k: K, j: nat)
    requires (forall o, n :: column(merge(o, n)) == column(n)) && LastWrites(writes, k, j)
    ensures k in PutAll(merge, table, writes) && column(PutAll(merge, table, writes)[k]) == column(writes[j][k])
  {
    var n := |writes| - 1;
    PutRow(merge, PutAll(merge, table, writes[..n]), writes[n], k);
    if j < n {
      ColumnIsLast(merge, column, table, writes[..n], k, j);
    }
  }

  // ----- Primary keys beside the conflict key -----

  predicate DistinctIds<K(==), V>(id: V -> string, table: map<K, V>) {
    forall k, l {:trigger id(table[k]), id(table[l])} :: k in table && l in table && id(table[k]) == id(table[l]) ==> k == l
  }

  /** The clause does not touch the primary key. */
  ghost predicate KeepsId<V(!new)>(merge: (V, V) -> V, id: V -> string) {
    forall o, n :: id(merge(o, n)) == id(o)
  }

  /** A statement fails when it would leave two rows with one primary key. */
  function PutChecked<K(==), V>(merge: (V, V) -> V, id: V -> string, table: map<K, V>, write: map<K, V>): Option<map<K, V>> {
    var after := Put(merge, table, write);
    if DistinctIds(id, after) then Some(after) else None
  }

  function PutAllChecked<K(==), V>(merge: (V, V) -> V, id: V -> string, table: map<K, V>, writes: seq<map<K, V>>): Option<map<K, V>> {
    if writes == [] then Some(table)
    else
      var before := PutAllChecked(merge, id, table, writes[..|writes| - 1]);
      if before.None? then None else PutChecked(merge, id, before.value, writes[|writes| - 1])
  }

  lemma ClashStays<K, V(!new)>(merge: (V, V) -> V, id: V -> string, table: map<K, V>, write: map<K, V>)
    requires KeepsId(merge, id) && !DistinctIds(id, table)
    ensures !DistinctIds(id, Put(merge, table, write))
  {
    var k, l :| k in table && l in table && id(table[k]) == id(table[l]) && k != l;
    var after := Put(merge, table, write);
    assert k in after && l in after && id(after[k]) == id(table[k]) && id(after[l]) == id(table[l]);
  }

  /** A run of statements goes through exactly when the rows it leaves have distinct primary keys. */
  lemma {:induction false} PutAllSucceedsIff<K, V(!new)>(merge: (V, V) -> V, id: V -> string, table: map<K, V>, writes: seq<map<K, V>>)
    requires KeepsId(merge, id) && DistinctIds(id, table)
    ensures PutAllChecked(merge, id, table, writes) ==
            if DistinctIds(id, PutAll(merge, table, writes)) then Some(PutAll(merge, table, writes)) else None
  {
    if writes != [] {
      var n := |writes| - 1;
      PutAllSucceedsIff(merge, id, table, writes[..n]);
      var before := PutAll(merge, table, writes[..n]);
      if !DistinctIds(id, before) {
        ClashStays(merge, id, before, writes[n]);
      }
    }
  }

  /** A checked run that went through goes through again and changes no row. */
  lemma CheckedRerunIsStable<K(!new), V(!new)>(
    merge: (V, V) -> V, id: V -> string, table: map<K, V>, xs: seq<map<K, V>>, ys: seq<map<K, V>>)
    requires Lawful(merge) && KeepsId(merge, id) && Agree(merge, xs, ys) && DistinctIds(id, table)
    requires PutAllChecked(merge, id, table, xs).Some?
    ensures var once := PutAllChecked(merge, id, table, xs);
      DistinctIds(id, once.value) && PutAllChecked(merge, id, once.value, ys) == once
  {
    PutAllSucceedsIff(merge, id, table, xs);
    RerunIsStable(merge, table, xs, ys);
    PutAllSucceedsIff(merge, id, PutAll(merge, table, xs), ys);
  }

  // ----- Success in terms of the statements -----

  /** Each write is one row, with this conflict key and this primary key. */
  ghost predicate Statements<K, V>(id: V -> string, writes: seq<map<K, V>>, keys: seq<K>, ids: seq<string>) {
    && |keys| == |writes| && |ids| == |writes|
    && forall i :: 0 <= i < |writes| ==> writes[i].Keys == {keys[i]} && id(writes[i][keys[i]]) == ids[i]
  }

  /** The i-th statement is the first one to write its key, which the table does not have. */
  ghost predicate IsNew<K, V>(table: map<K, V>, keys: seq<K>, i: int) {
    0 <= i < |keys| && keys[i] !in table && forall j :: 0 <= j < i ==> keys[j] != keys[i]
  }

  /** No inserted row takes the primary key of another inserted row or of a stored one. */
  ghost predicate NoClash<K, V>(id: V -> string, table: map<K, V>, keys: seq<K>, ids: seq<string>)
    requires |keys| == |ids|
  {
    && (forall i, j :: IsNew(table, keys, i) && IsNew(table, keys, j) && ids[i] == ids[j] ==> i == j)
    && (forall i, l :: IsNew(table, keys, i) && l in table ==> ids[i] != id(table[l]))
  }

  lemma {:induction false} StoredKeepsId<K, V(!new)>(merge: (V, V) -> V, id: V -> string, table: map<K, V>, writes: seq<map<K, V>>, k: K)
    requires KeepsId(merge, id) && k in table
    ensures k in PutAll(merge, table, writes) && id(PutAll(merge, table, writes)[k]) == id(table[k])
  {
    if writes != [] {
      StoredKeepsId(merge, id, table, writes[..|writes| - 1], k);
    }
  }

  lemma StatementsPrefix<K, V>(id: V -> string, writes: seq<map<K, V>>, keys: seq<K>, ids: seq<string>, n: nat)
    requires Statements(id, writes, keys, ids) && n <= |writes|
    ensures Statements(id, writes[..n], keys[..n], ids[..n])
  {
  }

  lemma NewInPrefix<K, V>(table: map<K, V>, keys: seq<K>, n: nat, i: int)
    requires n <= |keys| && i < n
    ensures IsNew(table, keys[..n], i) <==> IsNew(table, keys, i)
  {
    if IsNew(table, keys, i) {
      assert forall j :: 0 <= j < i ==> keys[..n][j] == keys[j];
    }
    if IsNew(table, keys[..n], i) {
      assert forall j :: 0 <= j < i ==> keys[j] == keys[..n][j];
    }
  }

  lemma {:induction false} NewHasItsId<K, V(!new)>(
    merge: (V, V) -> V, id: V -> string, table: map<K, V>, writes: seq<map<K, V>>, keys: seq<K>, ids: seq<string>, i: nat)
    requires KeepsId(merge, id) && Statements(id, writes, keys, ids) && IsNew(table, keys, i)
    ensures keys[i] in PutAll(merge, table, writes) && id(PutAll(merge, table, writes)[keys[i]]) == ids[i]
    decreases |writes|
  {
    var n := |writes| - 1;
    var before := PutAll(merge, table, writes[..n]);
    PutRow(merge, before, writes[n], keys[i]);
    if i < n {
      StatementsPrefix(id, writes, keys, ids, n);
      NewInPrefix(table, keys, n, i);
      NewHasItsId(merge, id, table, writes[..n], keys[..n], ids[..n], i);
      assert keys[..n][i] == keys[i] && ids[..n][i] == ids[i];
    } else {
      NotWritten(merge, table, writes[..n], keys[n]);
    }
    assert Row(PutAll(merge, table, writes), keys[i]).Some?;
  }

  lemma {:induction false} NotWritten<K, V>(merge: (V, V) -> V, table: map<K, V>, writes: seq<map<K, V>>, k: K)
    requires forall i :: 0 <= i < |writes| ==> k !in writes[i]
    ensures Row(PutAll(merge, table, writes), k) == Row(table, k)
  {
    if writes != [] {
      NotWritten(merge, table, writes[..|writes| - 1], k);
    }
  }

  lemma {:induction false} StoredOrNew<K, V>(
    merge: (V, V) -> V, id: V -> string, table: map<K, V>, writes: seq<map<K, V>>, keys: seq<K>, ids: seq<string>, k: K)
    returns (i: nat)
    requires Statements(id, writes, keys, ids) && k in PutAll(merge, table, writes) && k !in table
    ensures IsNew(table, keys, i) && keys[i] == k
  {
    var n := |writes| - 1;
    if k in PutAll(merge, table, writes[..n]) {
      StatementsPrefix(id, writes, keys, ids, n);
      i := StoredOrNew(merge, id, table, writes[..n], keys[..n], ids[..n], k);
      NewInPrefix(table, keys, n, i);
    } else {
      i := n;
      PutRow(merge, PutAll(merge, table, writes[..n]), writes[n], k);
      FirstWriter(merge, id, table, writes, keys, ids);
    }
  }

  /** A key that is absent before the last statement was not written before. */
  lemma FirstWriter<K, V>(
    merge: (V, V) -> V, id: V -> string, table: map<K, V>, writes: seq<map<K, V>>, keys: seq<K>, ids: seq<string>)
    requires writes != [] && Statements(id, writes, keys, ids)
    requires keys[|writes| - 1] !in PutAll(merge, table, writes[..|writes| - 1])
    ensures forall j :: 0 <= j < |writes| - 1 ==> keys[j] != keys[|writes| - 1]
  {
    var n := |writes| - 1;
    forall j | 0 <= j < n
      ensures keys[j] != keys[n]
    {
      assert writes[..n][j] == writes[j];
      Written(merge, table, writes[..n], j, keys[j]);
    }
  }

  lemma {:induction false} Written<K, V>(merge: (V, V) -> V, table: map<K, V>, writes: seq<map<K, V>>, j: nat, k: K)
    requires j < |writes| && k in writes[j]
    ensures k in PutAll(merge, table, writes)
  {
    if j < |writes| - 1 {
      Written(merge, table, writes[..|writes| - 1], j, k);
    }
  }

  /** The rows left have distinct primary keys exactly when the statements do not clash. */
  lemma DistinctIffNoClash<K(!new), V(!new)>(
    merge: (V, V) -> V, id: V -> string, table: map<K, V>, writes: seq<map<K, V>>, keys: seq<K>, ids: seq<string>)
    requires KeepsId(merge, id) && DistinctIds(id, table) && Statements(id, writes, keys, ids)
    ensures DistinctIds(id, PutAll(merge, table, writes)) <==> NoClash(id, table, keys, ids)
  {
    if NoClash(id, table, keys, ids) {
      NoClashIsDistinct(merge, id, table, writes, keys, ids);
    }
    if DistinctIds(id, PutAll(merge, table, writes)) {
      DistinctIsNoClash(merge, id, table, writes, keys, ids);
    }
  }

  lemma NoClashIsDistinct<K(!new), V(!new)>(
    merge: (V, V) -> V, id: V -> string, table: map<K, V>, writes: seq<map<K, V>>, keys: seq<K>, ids: seq<string>)
    requires KeepsId(merge, id) && DistinctIds(id, table) && Statements(id, writes, keys, ids) && NoClash(id, table, keys, ids)
    ensures DistinctIds(id, PutAll(merge, table, writes))
  {
    var after := PutAll(merge, table, writes);
    forall k, l | k in after && l in after && id(after[k]) == id(after[l])
      ensures k == l
    {
      var i := RowId(merge, id, table, writes, keys, ids, k);
      var j := RowId(merge, id, table, writes, keys, ids, l);
    }
  }

  /** The primary key of a row left is the stored one, or that of the statement that inserted it. */
  lemma RowId<K(!new), V(!new)>(
    merge: (V, V) -> V, id: V -> string, table: map<K, V>, writes: seq<map<K, V>>, keys: seq<K>, ids: seq<string>, k: K)
    returns (i: int)
    requires KeepsId(merge, id) && Statements(id, writes, keys, ids) && k in PutAll(merge, table, writes)
    ensures if k in table then id(PutAll(merge, table, writes)[k]) == id(table[k])
            else IsNew(table, keys, i) && keys[i] == k && id(PutAll(merge, table, writes)[k]) == ids[i]
  {
    if k in table {
      i := 0;
      StoredKeepsId(merge, id, table, writes, k);
    } else {
      i := StoredOrNew(merge, id, table, writes, keys, ids, k);
      NewHasItsId(merge, id, table, writes, keys, ids, i);
    }
  }

  lemma DistinctIsNoClash<K(!new), V(!new)>(
    merge: (V, V) -> V, id: V -> string, table: map<K, V>, writes: seq<map<K, V>>, keys: seq<K>, ids: seq<string>)
    requires KeepsId(merge, id) && Statements(id, writes, keys, ids) && DistinctIds(id, PutAll(merge, table, writes))
    ensures NoClash(id, table, keys, ids)
  {
    forall i, j | IsNew(table, keys, i) && IsNew(table, keys, j) && ids[i] == ids[j]
      ensures i == j
    {
      NewHasItsId(merge, id, table, writes, keys, ids, i);
      NewHasItsId(merge, id, table, writes, keys, ids, j);
    }
    forall i, l | IsNew(table, keys, i) && l in table
      ensures ids[i] != id(table[l])
    {
      NewHasItsId(merge, id, table, writes, keys, ids, i);
      StoredKeepsId(merge, id, table, writes, l);
    }
  }
}
