/** `get_news_ids` (src/lib.rs): the ids of the first `count` news entries of a
    fetched feed document. The fetch itself is an input: the document the HTTP
    request and JSON parse produced, or `Null` when either failed. */
module Lib {
  import opened Common
  import opened Json

  /** The id of entry `i`, `json["news"][i]["id"]`, when it is a JSON number that
      fits a `u64`. */
  function IdAt(json: Value, i: nat): Option<U64> {
    match Field(At(Field(json, "news"), i), "id")
    case Num(n) => AsU64(n)
    case _ => None
  }

  /** Entry `i` yields an id exactly when the document is an object whose "news" is
      an array longer than `i` whose entry `i` is an object with an "id" that is a
      non-negative integer number; a missing "news", a short array, a missing "id",
      a string, a negative or a fractional number all give nothing. */
  lemma IdAtCases(json: Value, i: nat)
    ensures IdAt(json, i).Some? <==>
      && json.Object? && "news" in json.fields
      && json.fields["news"].Array? && i < |json.fields["news"].elems|
      && json.fields["news"].elems[i].Object? && "id" in json.fields["news"].elems[i].fields
      && json.fields["news"].elems[i].fields["id"].Num?
      && json.fields["news"].elems[i].fields["id"].n.PosInt?
    ensures IdAt(json, i).Some? ==> IdAt(json, i).value == json.fields["news"].elems[i].fields["id"].n.u
  {
  }

  /** Reference definition: the usable ids of entries `0 .. n`, in index order. */
  function NewsIds(json: Value, n: nat): (r: seq<U64>)
    ensures |r| <= n
  {
    if n == 0 then []
    else NewsIds(json, n - 1) + (match IdAt(json, n - 1) case Some(id) => [id] case None => [])
  }

  /** `get_news_ids(count)` run on the fetched document `json`. */
  method GetNewsIds(json: Value, count: U64) returns (ids: seq<U64>)
    ensures ids == NewsIds(json, count)
    ensures |ids| <= count
  {
    ids := [];
    if json.Null? {
      NullHasNoIds(count);
      return;
    }
    for i := 0 to count
      invariant ids == NewsIds(json, i)
    {
      var id := Field(At(Field(json, "news"), i), "id");
      if id.Num? {
        var asU64 := AsU64(id.n);
        if asU64.Some? {
          ids := ids + [asU64.value];
        }
      }
    }
  }

  /** A `Null` document (a failed fetch) has no ids. */
  lemma {:induction false} NullHasNoIds(n: nat)
    ensures NewsIds(Null, n) == []
  {
    if n > 0 {
      NullHasNoIds(n - 1);
      assert IdAt(Null, n - 1) == None;
    }
  }

  /** A one-entry fetch, as priming asks for, yields the id of entry 0 if it is usable. */
  lemma NewsIdsOfOne(json: Value)
    ensures NewsIds(json, 1) == match IdAt(json, 0) case Some(id) => [id] case None => []
  {
  }

  /** The entry positions the ids come from, in index order. */
  function SourceIndices(json: Value, n: nat): seq<nat> {
    if n == 0 then []
    else SourceIndices(json, n - 1) + (if IdAt(json, n - 1).Some? then [n - 1] else [])
  }

  /** The result lists, in increasing index order, exactly the entries below `n`
      whose id is a `u64` number; every other entry (a string, a missing key, a
      negative or fractional number) is skipped. */
  lemma {:induction false} NewsIdsAreTheU64Ids(json: Value, n: nat)
    ensures var ids, idx := NewsIds(json, n), SourceIndices(json, n);
      && |idx| == |ids|
      && (forall k :: 0 <= k < |idx| ==> idx[k] < n && IdAt(json, idx[k]) == Some(ids[k]))
      && (forall k, l :: 0 <= k < l < |idx| ==> idx[k] < idx[l])
      && (forall j :: 0 <= j < n ==> (j in idx <==> IdAt(json, j).Some?))
  {
    if n > 0 {
      NewsIdsAreTheU64Ids(json, n - 1);
    }
  }

  /** When every entry below `n` has a `u64` id, the result is those ids, one per entry. */
  lemma {:induction false} AllNumericIds(json: Value, n: nat)
    requires forall j :: 0 <= j < n ==> IdAt(json, j).Some?
    ensures |NewsIds(json, n)| == n
    ensures forall j :: 0 <= j < n ==> NewsIds(json, n)[j] == IdAt(json, j).value
  {
    if n > 0 {
      AllNumericIds(json, n - 1);
    }
  }

  /** A concrete document: a numeric id, a string id, an entry without an id, a
      negative and a fractional id, then another numeric id; asking for ten
      entries gives the two numeric ids. */
  lemma MixedEntries()
    ensures var doc := Object(map["news" := Array([
              Object(map["id" := Num(PosInt(7))]),
              Object(map["id" := Str("8")]),
              Object(map["title" := Str("no id")]),
              Object(map["id" := Num(NegInt(-1))]),
              Object(map["id" := Num(Float(2.5))]),
              Object(map["id" := Num(PosInt(9))])])]);
      NewsIds(doc, 10) == [7, 9]
  {
    var doc := Object(map["news" := Array([
              Object(map["id" := Num(PosInt(7))]),
              Object(map["id" := Str("8")]),
              Object(map["title" := Str("no id")]),
              Object(map["id" := Num(NegInt(-1))]),
              Object(map["id" := Num(Float(2.5))]),
              Object(map["id" := Num(PosInt(9))])])]);
    assert NewsIds(doc, 1) == [7];
    assert NewsIds(doc, 2) == [7];
    assert NewsIds(doc, 3) == [7];
    assert NewsIds(doc, 4) == [7];
    assert NewsIds(doc, 5) == [7];
    assert NewsIds(doc, 6) == [7, 9];
    assert NewsIds(doc, 7) == [7, 9];
    assert NewsIds(doc, 8) == [7, 9];
    assert NewsIds(doc, 9) == [7, 9];
  }
}
