/**
 `inspect_dataset`: walks a two-level dict (field -> sub-field -> value) and
 builds a new dict that has every field of the dataset, each mapped to the
 allowlisted sub-fields of that field. The console diagnostics it prints on
 the way have no effect on the result and are not modelled.
 */
module Inspect {
  import opened Values

  /** The sub-field names that are copied into the result. */
  const Allowlist: seq<string> :=
    ["audio", "vision", "id", "text", "classification_labels", "regression_labels"]

  /** The pairs of `entries` whose key is allowlisted, in their original
      order. */
  function Keep(entries: Dict): (r: Dict)
    ensures |r| <= |entries|
    ensures forall i :: 0 <= i < |r| ==> r[i].0 in Allowlist
  {
    if entries == [] then []
    else
      var last := entries[|entries| - 1];
      Keep(entries[..|entries| - 1]) + if last.0 in Allowlist then [last] else []
  }

  /** What one field of the dataset becomes in the result: its allowlisted
      sub-fields when it is a dict, nothing otherwise. */
  function ExtractField(v: Value): (r: Dict)
    ensures !v.Map? ==> r == []
    ensures v.Map? ==> |r| <= |v.entries|
    ensures forall i :: 0 <= i < |r| ==> r[i].0 in Allowlist
  {
    if v.Map? then Keep(v.entries) else []
  }

  /** The result of `inspect_dataset(dataset)`, stated as a filter. */
  function Extracted(dataset: Value): (r: Value)
    ensures r.Map?
    ensures dataset.Map? ==> KeysOf(r.entries) == KeysOf(dataset.entries)
    ensures !dataset.Map? ==> r.entries == []
    ensures forall i :: 0 <= i < |r.entries| ==> r.entries[i].1.Map?
  {
    if dataset.Map? then
      var e := dataset.entries;
      var r := seq(|e|, i requires 0 <= i < |e| => (e[i].0, Map(ExtractField(e[i].1))));
      assert KeysOf(r) == KeysOf(e);
      Map(r)
    else
      Map([])
  }

  /** A pair survives the filter exactly when it was there and its key is
      allowlisted. */
  lemma {:induction false} KeepMember(entries: Dict, p: (string, Value))
    ensures p in Keep(entries) <==> p in entries && p.0 in Allowlist
  {
    if entries != [] {
      var init := entries[..|entries| - 1];
      KeepMember(init, p);
      assert entries == init + [entries[|entries| - 1]];
    }
  }

  /** Filtering a concatenation filters each part, so the survivors keep
      their relative order. */
  lemma {:induction false} KeepAppend(a: Dict, b: Dict)
    ensures Keep(a + b) == Keep(a) + Keep(b)
  {
    if b != [] {
      var init, last := b[..|b| - 1], b[|b| - 1];
      KeepAppend(a, init);
      assert (a + b)[..|a + b| - 1] == a + init;
      assert (a + b)[|a + b| - 1] == last;
      assert Keep(a + b) == Keep(a + init) + if last.0 in Allowlist then [last] else [];
      assert Keep(b) == Keep(init) + if last.0 in Allowlist then [last] else [];
      assert Keep(a) + Keep(init) + (if last.0 in Allowlist then [last] else [])
          == Keep(a) + (Keep(init) + if last.0 in Allowlist then [last] else []);
    } else {
      assert a + b == a;
    }
  }

  /** A key absent from a dict is absent from its filtered copy. */
  lemma KeepKeys(entries: Dict, k: string)
    requires k !in KeysOf(entries)
    ensures k !in KeysOf(Keep(entries))
  {
    var r := Keep(entries);
    forall i | 0 <= i < |r| ensures KeysOf(r)[i] != k {
      KeepMember(entries, r[i]);
      var j :| 0 <= j < |entries| && entries[j] == r[i];
      assert KeysOf(entries)[j] != k;
    }
  }

  /** The filtered copy of a dict is still a dict: its keys stay unique. */
  lemma {:induction false} KeepDistinct(entries: Dict)
    requires DistinctKeys(entries)
    ensures DistinctKeys(Keep(entries))
  {
    if entries != [] {
      var init := entries[..|entries| - 1];
      var last := entries[|entries| - 1];
      assert DistinctKeys(init);
      KeepDistinct(init);
      FreshKey(entries, entries, |entries| - 1);
      KeepKeys(init, last.0);
      forall i | 0 <= i < |Keep(init)| ensures Keep(init)[i].0 != last.0 {
        assert KeysOf(Keep(init))[i] == Keep(init)[i].0;
      }
    }
  }

  /** Sub-field lookup in the filtered dict: a sub-field is present exactly
      when it is present in the original and allowlisted, and then it holds
      the original value. */
  lemma KeepGet(entries: Dict, k: string)
    requires DistinctKeys(entries)
    ensures k in KeysOf(Keep(entries)) <==> k in KeysOf(entries) && k in Allowlist
    ensures k in KeysOf(Keep(entries)) ==> Get(Keep(entries), k) == Get(entries, k)
  {
    var r := Keep(entries);
    KeepDistinct(entries);
    if k in KeysOf(r) {
      var i :| 0 <= i < |r| && KeysOf(r)[i] == k;
      KeepMember(entries, r[i]);
      var j :| 0 <= j < |entries| && entries[j] == r[i];
      assert KeysOf(entries)[j] == k;
      GetAt(r, i);
      GetAt(entries, j);
    }
    if k in KeysOf(entries) && k in Allowlist {
      var j :| 0 <= j < |entries| && KeysOf(entries)[j] == k;
      KeepMember(entries, entries[j]);
      var i :| 0 <= i < |r| && r[i] == entries[j];
      assert KeysOf(r)[i] == k;
    }
  }

  /** Field lookup in the result: every field of a dict dataset is there,
      and holds `{}` unless the field's value is a dict, in which case it
      holds exactly the allowlisted sub-fields with their original values. */
  lemma ExtractedGet(dataset: Value, field: string, sub: string)
    requires WellFormed(dataset) && dataset.Map? && field in KeysOf(dataset.entries)
    ensures var r := Extracted(dataset).entries;
      && field in KeysOf(r)
      && Get(r, field).Map?
      && var v := Get(dataset.entries, field);
      && (!v.Map? || v.entries == [] ==> Get(r, field).entries == [])
      && (v.Map? ==>
            && (sub in KeysOf(Get(r, field).entries) <==> sub in KeysOf(v.entries) && sub in Allowlist)
            && (sub in KeysOf(Get(r, field).entries) ==>
                  Get(Get(r, field).entries, sub) == Get(v.entries, sub)))
  {
    var e := dataset.entries;
    var r := Extracted(dataset).entries;
    var i :| 0 <= i < |e| && KeysOf(e)[i] == field;
    GetAt(e, i);
    assert DistinctKeys(r) by {
      forall a, b | 0 <= a < b < |r| ensures r[a].0 != r[b].0 {
        assert KeysOf(r)[a] == KeysOf(e)[a] && KeysOf(r)[b] == KeysOf(e)[b];
      }
    }
    assert KeysOf(r)[i] == field;
    GetAt(r, i);
    if e[i].1.Map? {
      assert WellFormed(e[i].1);
      KeepGet(e[i].1.entries, sub);
    }
  }

  /** The result of extracting from a well-formed dataset is well formed. */
  lemma ExtractedWellFormed(dataset: Value)
    requires WellFormed(dataset)
    ensures WellFormed(Extracted(dataset))
  {
    var r := Extracted(dataset).entries;
    if dataset.Map? {
      var e := dataset.entries;
      assert DistinctKeys(r) by {
        forall a, b | 0 <= a < b < |r| ensures r[a].0 != r[b].0 {
          assert KeysOf(r)[a] == KeysOf(e)[a] && KeysOf(r)[b] == KeysOf(e)[b];
        }
      }
      forall i | 0 <= i < |r| ensures WellFormed(r[i].1) {
        var v := e[i].1;
        if v.Map? {
          assert WellFormed(v);
          KeepDistinct(v.entries);
          forall j | 0 <= j < |Keep(v.entries)| ensures WellFormed(Keep(v.entries)[j].1) {
            var p := Keep(v.entries)[j];
            KeepMember(v.entries, p);
            var m :| 0 <= m < |v.entries| && v.entries[m] == p;
          }
        }
      }
    }
  }

  /** The fields of a dict dataset are fresh keys as the result is built:
      the i-th field is not among the result's first i keys. */
  lemma ExtractFresh(dataset: Value, i: nat)
    requires WellFormed(dataset) && dataset.Map? && i < |dataset.entries|
    ensures dataset.entries[i].0 !in KeysOf(Extracted(dataset).entries[..i])
  {
    var e := dataset.entries;
    var spec := Extracted(dataset).entries;
    assert KeysOf(spec) == KeysOf(e);
    FreshKey(spec, e, i);
  }

  /** One field processed: the result so far, extended by that field and its
      filtered sub-fields, is the next prefix of the specification. */
  lemma ExtractPrefix(dataset: Value, i: nat)
    requires dataset.Map? && i < |dataset.entries|
    ensures var e := dataset.entries;
      var spec := Extracted(dataset).entries;
      spec[..i + 1] == spec[..i] + [(e[i].0, Map(ExtractField(e[i].1)))]
  {
    var e := dataset.entries;
    var spec := Extracted(dataset).entries;
    assert spec[i] == (e[i].0, Map(ExtractField(e[i].1)));
    assert spec[..i + 1] == spec[..i] + [spec[i]];
  }

  /** Every dict field of a well-formed dataset has unique sub-field keys. */
  lemma FieldDistinct(dataset: Value, i: nat)
    requires WellFormed(dataset) && dataset.Map? && i < |dataset.entries|
    ensures dataset.entries[i].1.Map? ==> DistinctKeys(dataset.entries[i].1.entries)
  {
    assert WellFormed(dataset.entries[i].1);
  }

  /** Appending the j-th sub-field, when it is allowlisted, to the filtered
      first j sub-fields gives the filtered first j + 1 sub-fields. */
  lemma KeepStep(sub: Dict, j: nat)
    requires DistinctKeys(sub) && j < |sub| && sub[j].0 in Allowlist
    ensures Assign(Keep(sub[..j]), sub[j].0, sub[j].1) == Keep(sub[..j + 1])
  {
    FreshKey(sub, sub, j);
    KeepKeys(sub[..j], sub[j].0);
    AssignFresh(Keep(sub[..j]), sub[j].0, sub[j].1);
    assert sub[..j + 1][..j] == sub[..j];
  }

  /** One allowlisted sub-field copied into the field currently being
      built: `result[field][sub_field] = data_point` extends the filtered
      prefix of the field's sub-fields by one pair. */
  lemma CopySubField(prefix: Dict, field: string, sub: Dict, j: nat)
    requires field !in KeysOf(prefix) && DistinctKeys(sub) && j < |sub|
    requires sub[j].0 in Allowlist
    ensures var out := prefix + [(field, Map(Keep(sub[..j])))];
      && field in KeysOf(out)
      && Get(out, field).Map?
      && var inner := Get(out, field).entries;
      Assign(out, field, Map(Assign(inner, sub[j].0, sub[j].1)))
        == prefix + [(field, Map(Keep(sub[..j + 1])))]
  {
    GetLast(prefix, field, Map(Keep(sub[..j])));
    KeepStep(sub, j);
    AssignLast(prefix, field, Map(Keep(sub[..j])), Map(Keep(sub[..j + 1])));
  }

  /** A sub-field outside the allowlist leaves the filtered prefix as it
      was. */
  lemma SkipSubField(sub: Dict, j: nat)
    requires j < |sub| && sub[j].0 !in Allowlist
    ensures Keep(sub[..j + 1]) == Keep(sub[..j])
  {
    assert sub[..j + 1][..j] == sub[..j];
  }

  /** `inspect_dataset(dataset)`, without its printing: the result dict is
      built entry by entry, as the source does, and equals the filter. */
  method InspectDataset(dataset: Value) returns (result: Value)
    requires WellFormed(dataset)
    ensures result == Extracted(dataset)
  {
    if !dataset.Map? {
      return Map([]);
    }
    ghost var spec := Extracted(dataset).entries;
    var datasetKeys := KeysOf(dataset.entries);
    var out: Dict := [];
    for i := 0 to |datasetKeys|
      invariant out == spec[..i]
    {
      var field := datasetKeys[i];
      ExtractFresh(dataset, i);
      ExtractPrefix(dataset, i);
      AssignFresh(out, field, Map([]));
      out := Assign(out, field, Map([]));

      GetAt(dataset.entries, i);
      var fieldValue := Get(dataset.entries, field);
      if !fieldValue.Map? {
        continue;
      }
      var fieldKeys := KeysOf(fieldValue.entries);
      if |fieldKeys| == 0 {
        continue;
      }

      ghost var sub := fieldValue.entries;
      FieldDistinct(dataset, i);
      for j := 0 to |fieldKeys|
        invariant out == spec[..i] + [(field, Map(Keep(sub[..j])))]
      {
        var subField := fieldKeys[j];
        GetAt(sub, j);
        var dataPoint := Get(fieldValue.entries, subField);
        if subField in Allowlist {
          CopySubField(spec[..i], field, sub, j);
          var inner := Get(out, field).entries;
          out := Assign(out, field, Map(Assign(inner, subField, dataPoint)));
        } else {
          SkipSubField(sub, j);
        }
      }
      assert sub[..|fieldKeys|] == sub;
    }
    assert spec[..|datasetKeys|] == spec;
    return Map(out);
  }
}
