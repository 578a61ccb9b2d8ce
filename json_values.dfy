/**
 * JSON values as a document writes them, and the dicts `json.load` makes of them:
 * an object's entries become a dict by assigning each entry in document order,
 * so a repeated key keeps the place of its first entry and the value of its last.
 */
module JsonValues {
  /** A JSON value; an object is its list of entries in document order, where a key may repeat. */
  datatype Json =
    | JNull
    | JBool(b: bool)
    | JNumber(n: int)
    | JString(s: string)
    | JArray(items: seq<Json>)
    | JObject(entries: seq<(string, Json)>)

  /** Whether the object entries have the key `k` (Python's `k in d`). */
  predicate HasKey(entries: seq<(string, Json)>, k: string)
  {
    exists i :: 0 <= i < |entries| && entries[i].0 == k
  }

  /** No key occurs twice: the entries of a Python dict. */
  predicate DistinctKeys(entries: seq<(string, Json)>)
  {
    forall i, j :: 0 <= i < j < |entries| ==> entries[i].0 != entries[j].0
  }

  /** `d[k]` for a key the entries have: the value of its last entry, the one `json.load` keeps. */
  function Get(entries: seq<(string, Json)>, k: string): (v: Json)
    requires HasKey(entries, k)
    ensures exists i :: 0 <= i < |entries| && entries[i] == (k, v) && forall j :: i < j < |entries| ==> entries[j].0 != k
    decreases |entries|
  {
    var n := |entries| - 1;
    if entries[n].0 == k then entries[n].1
    else
      assert HasKey(entries[..n], k) by {
        var i :| 0 <= i < |entries| && entries[i].0 == k;
        assert entries[..n][i] == entries[i];
      }
      var v := Get(entries[..n], k);
      var i :| 0 <= i < n && entries[..n][i] == (k, v) && forall j :: i < j < n ==> entries[..n][j].0 != k;
      assert entries[i] == (k, v) && forall j :: i < j < |entries| ==> entries[j].0 != k by {
        forall j | i < j < n ensures entries[j].0 != k {
          assert entries[j] == entries[..n][j];
        }
      }
      v
  }

  /** The entry of `k` that no later entry of `k` follows holds the value `d[k]`. */
  lemma GetAt(entries: seq<(string, Json)>, k: string, i: int)
    requires 0 <= i < |entries| && entries[i].0 == k
    requires forall j :: i < j < |entries| ==> entries[j].0 != k
    ensures HasKey(entries, k) && Get(entries, k) == entries[i].1
  {
    var v := Get(entries, k);
    var i' :| 0 <= i' < |entries| && entries[i'] == (k, v) && forall j :: i' < j < |entries| ==> entries[j].0 != k;
    assert i' == i;
  }

  /** In a dict every entry holds the value its key looks up. */
  lemma GetDistinct(entries: seq<(string, Json)>, i: int)
    requires DistinctKeys(entries) && 0 <= i < |entries|
    ensures HasKey(entries, entries[i].0) && Get(entries, entries[i].0) == entries[i].1
  {
    GetAt(entries, entries[i].0, i);
  }

  /** `d[k] = v` on a dict's entries: a present key keeps its place and takes `v`, a new key goes last. */
  function SetEntry(entries: seq<(string, Json)>, k: string, v: Json): (r: seq<(string, Json)>)
    ensures |r| == if HasKey(entries, k) then |entries| else |entries| + 1
  {
    if HasKey(entries, k) then seq(|entries|, i requires 0 <= i < |entries| => if entries[i].0 == k then (k, v) else entries[i])
    else entries + [(k, v)]
  }

  /**
   * `d[k] = v` changes only the entry of `k`: every entry of another key keeps its
   * value and its place, and every entry afterwards is `(k, v)` or the old entry there.
   */
  lemma SetEntryOthers(entries: seq<(string, Json)>, k: string, v: Json)
    ensures forall i :: 0 <= i < |entries| && entries[i].0 != k ==> SetEntry(entries, k, v)[i] == entries[i]
    ensures forall i :: 0 <= i < |SetEntry(entries, k, v)| ==>
      SetEntry(entries, k, v)[i] == (k, v) || (i < |entries| && SetEntry(entries, k, v)[i] == entries[i])
  {
  }

  /** After `d[k] = v` the keys are the old ones and `k`, and looking `k` up gives `v`. */
  lemma SetEntryGet(entries: seq<(string, Json)>, k: string, v: Json)
    ensures forall k' :: HasKey(SetEntry(entries, k, v), k') <==> k' == k || HasKey(entries, k')
    ensures Get(SetEntry(entries, k, v), k) == v
  {
    var r := SetEntry(entries, k, v);
    forall k' ensures HasKey(r, k') <==> k' == k || HasKey(entries, k') {
      if HasKey(entries, k') {
        var i :| 0 <= i < |entries| && entries[i].0 == k';
        assert r[i].0 == k';
      }
      if k' == k && !HasKey(entries, k) {
        assert r[|entries|].0 == k;
      }
    }
    var i :| 0 <= i < |r| && r[i] == (k, Get(r, k));
    SetEntryOthers(entries, k, v);
  }

  /** After `d[k] = v` every other key looks up the value it had. */
  lemma SetEntryGetOther(entries: seq<(string, Json)>, k: string, v: Json, k': string)
    requires k' != k && HasKey(entries, k')
    ensures HasKey(SetEntry(entries, k, v), k') && Get(SetEntry(entries, k, v), k') == Get(entries, k')
  {
    var r := SetEntry(entries, k, v);
    SetEntryOthers(entries, k, v);
    var i :| 0 <= i < |entries| && entries[i] == (k', Get(entries, k')) && forall j :: i < j < |entries| ==> entries[j].0 != k';
    GetAt(r, k', i);
  }

  /** `d[k] = v` on a dict gives a dict. */
  lemma SetEntryDistinct(entries: seq<(string, Json)>, k: string, v: Json)
    requires DistinctKeys(entries)
    ensures DistinctKeys(SetEntry(entries, k, v))
  {
    SetEntryOthers(entries, k, v);
    var r := SetEntry(entries, k, v);
    forall i, j | 0 <= i < j < |r| ensures r[i].0 != r[j].0 {
      if !HasKey(entries, k) && j == |entries| {
        assert r[i] == entries[i];
      }
    }
  }

  /** The keys of entries with one entry appended: the earlier keys and the new one. */
  lemma HasKeySnoc(entries: seq<(string, Json)>)
    requires entries != []
    ensures forall k :: HasKey(entries, k) <==> k == entries[|entries| - 1].0 || HasKey(entries[..|entries| - 1], k)
  {
    var n := |entries| - 1;
    forall k ensures HasKey(entries, k) <==> k == entries[n].0 || HasKey(entries[..n], k) {
      if HasKey(entries, k) && k != entries[n].0 {
        var i :| 0 <= i < |entries| && entries[i].0 == k;
        assert entries[..n][i] == entries[i];
      }
      if HasKey(entries[..n], k) {
        var i :| 0 <= i < n && entries[..n][i].0 == k;
        assert entries[i] == entries[..n][i];
      }
    }
  }

  /** Appending an entry of another key does not change what `k` looks up. */
  lemma GetSnocOther(entries: seq<(string, Json)>, k: string)
    requires entries != [] && entries[|entries| - 1].0 != k && HasKey(entries[..|entries| - 1], k)
    ensures HasKey(entries, k) && Get(entries, k) == Get(entries[..|entries| - 1], k)
  {
    var n := |entries| - 1;
    var front := entries[..n];
    var v := Get(front, k);
    var i :| 0 <= i < n && front[i] == (k, v) && forall j :: i < j < n ==> front[j].0 != k;
    assert entries[i].0 == k by { assert entries[i] == front[i]; }
    forall j | i < j < |entries| ensures entries[j].0 != k {
      if j < n {
        assert entries[j] == front[j];
      }
    }
    GetAt(entries, k, i);
    assert entries[i].1 == v by { assert entries[i] == front[i]; }
  }

  /** The dict `json.load` builds from an object's entries: each entry assigned in turn. */
  function DictOf(entries: seq<(string, Json)>): seq<(string, Json)>
    decreases |entries|
  {
    if entries == [] then []
    else
      var n := |entries| - 1;
      SetEntry(DictOf(entries[..n]), entries[n].0, entries[n].1)
  }

  /**
   * The dict of an object holds each of its keys once, the same keys, and under
   * each key the value of its last entry.
   */
  lemma {:induction false} DictOfSemantics(entries: seq<(string, Json)>)
    ensures DistinctKeys(DictOf(entries))
    ensures forall k :: HasKey(DictOf(entries), k) <==> HasKey(entries, k)
    ensures forall k :: HasKey(entries, k) ==> Get(DictOf(entries), k) == Get(entries, k)
    decreases |entries|
  {
    if entries != [] {
      var n := |entries| - 1;
      var front, k, v := entries[..n], entries[n].0, entries[n].1;
      var d := DictOf(front);
      assert DictOf(entries) == SetEntry(d, k, v);
      DictOfSemantics(front);
      SetEntryDistinct(d, k, v);
      SetEntryGet(d, k, v);
      HasKeySnoc(entries);
      assert Get(entries, k) == v by { GetAt(entries, k, n); }
      forall k' | HasKey(entries, k') && k' != k ensures Get(SetEntry(d, k, v), k') == Get(entries, k') {
        GetSnocOther(entries, k');
        SetEntryGetOther(d, k, v, k');
      }
    }
  }

  /** `json.load`: every object, at any depth, becomes its dict. */
  function Load(j: Json): Json
    decreases j
  {
    match j
    case JArray(items) => JArray(seq(|items|, i requires 0 <= i < |items| => Load(items[i])))
    case JObject(es) => JObject(DictOf(seq(|es|, i requires 0 <= i < |es| => (es[i].0, Load(es[i].1)))))
    case _ => j
  }

  /**
   * A loaded object is a dict with the object's keys, where each key holds the load
   * of the value of its last entry; a loaded list holds the loads of its items.
   */
  lemma LoadSemantics(j: Json)
    ensures Load(j).JObject? <==> j.JObject?
    ensures Load(j).JArray? <==> j.JArray?
    ensures j.JArray? ==> |Load(j).items| == |j.items| && forall i :: 0 <= i < |j.items| ==> Load(j).items[i] == Load(j.items[i])
    ensures j.JObject? ==>
      && DistinctKeys(Load(j).entries)
      && (forall k :: HasKey(Load(j).entries, k) <==> HasKey(j.entries, k))
      && forall k :: HasKey(j.entries, k) ==> Get(Load(j).entries, k) == Load(Get(j.entries, k))
  {
    if j.JObject? {
      var es := j.entries;
      var m := seq(|es|, i requires 0 <= i < |es| => (es[i].0, Load(es[i].1)));
      DictOfSemantics(m);
      forall k ensures HasKey(m, k) <==> HasKey(es, k) {
        if HasKey(es, k) {
          var i :| 0 <= i < |es| && es[i].0 == k;
          assert m[i].0 == k;
        }
      }
      forall k | HasKey(es, k) ensures Get(m, k) == Load(Get(es, k)) {
        var i :| 0 <= i < |es| && es[i] == (k, Get(es, k)) && forall j :: i < j < |es| ==> es[j].0 != k;
        GetAt(m, k, i);
      }
    }
  }
}
