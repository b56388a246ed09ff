/**
 * The open record shape every scraper builds: a map from field name to a
 * string, `null`, a list of strings or a nested map. A key absent from the
 * map stands for a property that is `undefined`.
 *
 * The `json[key] = value` assignments that the page callbacks perform inside
 * `forEach` are modelled by `ForEachAssign`, proved against `Put`.
 */
module Json {
  import opened Wrappers

  datatype Value = Null | Str(s: string) | List(items: seq<string>) | Obj(fields: map<string, Value>)

  type Record = map<string, Value>

  /** Truthiness of `record[key]`; a missing key reads as `undefined`. */
  predicate FieldTruthy(r: Record, key: string) {
    key in r &&
    match r[key]
    case Null => false
    case Str(s) => s != []
    case _ => true
  }

  /** A text read stored as a field: `null` when there is no text. */
  function OfText(t: Option<string>): Value {
    match t
    case None => Null
    case Some(s) => Str(s)
  }

  /** The record after the assignments `m[k] = v` for each pair in order. */
  function Put(m: Record, pairs: seq<(string, Value)>): Record
    decreases |pairs|
  {
    if pairs == [] then m
    else Put(m, pairs[..|pairs| - 1])[pairs[|pairs| - 1].0 := pairs[|pairs| - 1].1]
  }

  /** A field holds the value of the last assignment made to it. */
  lemma {:induction false} PutLast(m: Record, pairs: seq<(string, Value)>, i: nat)
    requires i < |pairs|
    requires forall j :: i < j < |pairs| ==> pairs[j].0 != pairs[i].0
    ensures pairs[i].0 in Put(m, pairs) && Put(m, pairs)[pairs[i].0] == pairs[i].1
    decreases |pairs|
  {
    if i < |pairs| - 1 {
      PutLast(m, pairs[..|pairs| - 1], i);
    }
  }

  /** A field that no assignment names keeps its value, or stays absent. */
  lemma {:induction false} PutOther(m: Record, pairs: seq<(string, Value)>, k: string)
    requires forall j :: 0 <= j < |pairs| ==> pairs[j].0 != k
    ensures k in Put(m, pairs) <==> k in m
    ensures k in m ==> Put(m, pairs)[k] == m[k]
    decreases |pairs|
  {
    if pairs != [] {
      PutOther(m, pairs[..|pairs| - 1], k);
    }
  }

  /** Every field of the result is an old one left alone, or was set by some assignment. */
  lemma {:induction false} PutOrigin(m: Record, pairs: seq<(string, Value)>, k: string)
    requires k in Put(m, pairs)
    ensures (k in m && Put(m, pairs)[k] == m[k]) || (k, Put(m, pairs)[k]) in pairs
    decreases |pairs|
  {
    if pairs != [] {
      var last := pairs[|pairs| - 1];
      if k != last.0 {
        PutOrigin(m, pairs[..|pairs| - 1], k);
      }
    }
  }

  /** The assignments a `forEach` over `rows` performs, `entry` saying per row which field to set, if any. */
  function Entries<R>(rows: seq<R>, entry: R -> Option<(string, Value)>): (pairs: seq<(string, Value)>)
    ensures |pairs| <= |rows|
    ensures forall p :: p in pairs ==> exists i :: 0 <= i < |rows| && entry(rows[i]) == Some(p)
    decreases |rows|
  {
    if rows == [] then []
    else
      var last := rows[|rows| - 1];
      var before := Entries(rows[..|rows| - 1], entry);
      assert forall p :: p in before ==> exists i :: 0 <= i < |rows| && entry(rows[i]) == Some(p) by {
        forall p | p in before ensures exists i :: 0 <= i < |rows| && entry(rows[i]) == Some(p) {
          var i :| 0 <= i < |rows| - 1 && entry(rows[..|rows| - 1][i]) == Some(p);
          assert rows[..|rows| - 1][i] == rows[i];
        }
      }
      before + Assigned(entry(last))
  }

  /** The assignment one row performs: none, or one. */
  function Assigned(e: Option<(string, Value)>): seq<(string, Value)> {
    match e
    case None => []
    case Some(p) => [p]
  }

  /** Performing one row's assignment, if any, after the others. */
  lemma PutAssigned(m: Record, pairs: seq<(string, Value)>, e: Option<(string, Value)>)
    ensures Put(m, pairs + Assigned(e)) == if e.None? then Put(m, pairs) else Put(m, pairs)[e.value.0 := e.value.1]
  {
    if e.None? {
      assert pairs + [] == pairs;
    } else {
      PutSnoc(m, pairs, e.value);
    }
  }

  /** The assignments of the rows but the last, then the last row's. */
  lemma EntriesSnoc<R>(rows: seq<R>, entry: R -> Option<(string, Value)>)
    requires rows != []
    ensures Entries(rows, entry) ==
      Entries(rows[..|rows| - 1], entry) + Assigned(entry(rows[|rows| - 1]))
  {
  }

  lemma PutSnoc(m: Record, pairs: seq<(string, Value)>, p: (string, Value))
    ensures Put(m, pairs + [p]) == Put(m, pairs)[p.0 := p.1]
  {
    assert (pairs + [p])[..|pairs|] == pairs;
  }

  /** After a `forEach`, a field holds the value of the last row that assigned it. */
  lemma {:induction false} LastRowWins<R>(m: Record, rows: seq<R>, entry: R -> Option<(string, Value)>, i: nat)
    requires i < |rows| && entry(rows[i]).Some?
    requires forall j :: i < j < |rows| ==> entry(rows[j]).None? || entry(rows[j]).value.0 != entry(rows[i]).value.0
    ensures entry(rows[i]).value.0 in Put(m, Entries(rows, entry))
    ensures Put(m, Entries(rows, entry))[entry(rows[i]).value.0] == entry(rows[i]).value.1
    decreases |rows|
  {
    var n := |rows| - 1;
    var init := rows[..n];
    var before := Entries(init, entry);
    var key, val := entry(rows[i]).value.0, entry(rows[i]).value.1;
    var e := entry(rows[n]);
    EntriesSnoc(rows, entry);
    if i == n {
      PutSnoc(m, before, (key, val));
    } else {
      assert init[i] == rows[i];
      assert forall j :: i < j < n ==> init[j] == rows[j];
      LastRowWins(m, init, entry, i);
      PutKeeps(m, before, e, key);
    }
  }

  /** A row that assigns another field, or none, leaves `key` as it was. */
  lemma PutKeeps(m: Record, pairs: seq<(string, Value)>, e: Option<(string, Value)>, key: string)
    requires key in Put(m, pairs)
    requires e.None? || e.value.0 != key
    ensures key in Put(m, pairs + Assigned(e)) && Put(m, pairs + Assigned(e))[key] == Put(m, pairs)[key]
  {
    PutAssigned(m, pairs, e);
  }

  /** A field that no row assigns keeps its value, or stays absent. */
  lemma NoRowAssigns<R>(m: Record, rows: seq<R>, entry: R -> Option<(string, Value)>, k: string)
    requires forall i :: 0 <= i < |rows| ==> entry(rows[i]).None? || entry(rows[i]).value.0 != k
    ensures k in Put(m, Entries(rows, entry)) <==> k in m
    ensures k in m ==> Put(m, Entries(rows, entry))[k] == m[k]
  {
    var pairs := Entries(rows, entry);
    forall j | 0 <= j < |pairs| ensures pairs[j].0 != k {
      var i :| 0 <= i < |rows| && entry(rows[i]) == Some(pairs[j]);
    }
    PutOther(m, pairs, k);
  }

  /** Every field of the result was in the record already, or was assigned by some row. */
  lemma RowOrigin<R>(m: Record, rows: seq<R>, entry: R -> Option<(string, Value)>, k: string)
    requires k in Put(m, Entries(rows, entry))
    ensures (k in m && Put(m, Entries(rows, entry))[k] == m[k]) ||
      exists i :: 0 <= i < |rows| && entry(rows[i]) == Some((k, Put(m, Entries(rows, entry))[k]))
  {
    PutOrigin(m, Entries(rows, entry), k);
  }

  /** `rows.forEach(row => { ...; if (...) json[key] = value; })`. */
  method ForEachAssign<R>(json: Record, rows: seq<R>, entry: R -> Option<(string, Value)>) returns (out: Record)
    ensures out == Put(json, Entries(rows, entry))
  {
    out := json;
    for i := 0 to |rows|
      invariant out == Put(json, Entries(rows[..i], entry))
    {
      var prefix := rows[..i + 1];
      assert prefix[..i] == rows[..i] && prefix[i] == rows[i];
      EntriesSnoc(prefix, entry);
      PutAssigned(json, Entries(rows[..i], entry), entry(rows[i]));
      match entry(rows[i]) {
        case None =>
        case Some(p) =>
          out := out[p.0 := p.1];
      }
    }
    assert rows[..|rows|] == rows;
  }
}
