/**
 `main(file_path, mode)`: load a dataset, extract its allowlisted fields,
 and either hand the extracted dict back (mode falsy) or normalise it, write
 it as JSON and hand back `{}` (mode truthy).

 Reading the pickle file is not modelled: what `read_pkl_file` returns is
 the parameter `loaded`. Python's `None` is `Other(NoneValue)`, whether it
 stands for a failed load or for a pickle that holds `None`; `main` treats
 both alike. The `None` that `main` itself returns is `result == None`.
 Writing the JSON file is modelled by the out-parameter `written`, the value
 passed to the encoder.
 */
module Pipeline {
  import opened Values
  import opened Normalize
  import opened Inspect

  /** The return value and the JSON file content of `main`. `mode` is
      Python-truthy when it is non-zero. */
  method Run(loaded: Value, mode: int) returns (result: Option<Value>, written: Option<Value>)
    requires WellFormed(loaded)
    ensures loaded == Other(NoneValue) ==> result.None? && written.None?
    ensures loaded != Other(NoneValue) && mode == 0 ==>
      result == Some(Extracted(loaded)) && written.None?
    ensures loaded != Other(NoneValue) && mode != 0 ==>
      && result == Some(Map([]))
      && WellFormed(Extracted(loaded))
      && written == Some(Convert(Extracted(loaded)))
    ensures written.Some? ==> NoArrays(written.value)
  {
    written := None;
    if loaded != Other(NoneValue) {
      var extracted := InspectDataset(loaded);
      if mode != 0 {
        ExtractedWellFormed(loaded);
        written := Some(Convert(extracted));
        return Some(Map([])), written;
      } else {
        return Some(extracted), written;
      }
    } else {
      return None, written;
    }
  }

  /** The worked example's dataset: `{"train": {"audio": <2x3 array>,
      "caption": "hi"}}`. */
  function TrainDataset(x: seq<Scalar>): (dataset: Value)
  {
    Map([("train", Map([("audio", Array([2, 3], x)), ("caption", Other(Str("hi")))]))])
  }

  /** Extraction keeps `audio` and drops `caption`. */
  lemma TrainExtracted(x: seq<Scalar>)
    requires |x| == 6
    ensures WellFormed(TrainDataset(x))
    ensures Extracted(TrainDataset(x)) == Map([("train", Map([("audio", Array([2, 3], x))]))])
  {
    var audio := Array([2, 3], x);
    var train := [("audio", audio), ("caption", Other(Str("hi")))];
    assert Product([2, 3]) == 6 by {
      assert [2, 3][1..] == [3] && [3][1..] == [];
    }
    assert "caption" !in Allowlist;
    assert train[..1] == [("audio", audio)] && train[..1][..0] == [];
    assert Keep(train) == [("audio", audio)];
  }

  /** A 2x3 array is written as two rows of three numbers. */
  lemma MatrixToList(x: seq<Scalar>)
    requires |x| == 6
    ensures WellFormed(Array([2, 3], x))
    ensures Convert(Array([2, 3], x)) == Seq([
      Seq([Other(x[0]), Other(x[1]), Other(x[2])]),
      Seq([Other(x[3]), Other(x[4]), Other(x[5])])])
  {
    var m := Convert(Array([2, 3], x));
    forall i, j | 0 <= i < 2 && 0 <= j < 3
      ensures m.items[i].Seq? && |m.items[i].items| == 3
      ensures m.items[i].items[j] == Other(x[i * 3 + j])
    {
      ToListMatrix(2, 3, x, i, j);
    }
    ToListMatrix(2, 3, x, 0, 0);
    assert m.items[0].items == [Other(x[0]), Other(x[1]), Other(x[2])];
    assert m.items[1].items == [Other(x[3]), Other(x[4]), Other(x[5])];
    assert m.items == [m.items[0], m.items[1]];
  }

  /** In mode 1 the JSON written for the example holds only `audio`, as
      nested lists, and `main` returns `{}`. */
  lemma TrainWritten(x: seq<Scalar>)
    requires |x| == 6
    ensures WellFormed(TrainDataset(x)) && WellFormed(Extracted(TrainDataset(x)))
    ensures Convert(Extracted(TrainDataset(x)))
      == Map([("train", Map([("audio", Seq([
           Seq([Other(x[0]), Other(x[1]), Other(x[2])]),
           Seq([Other(x[3]), Other(x[4]), Other(x[5])])]))]))])
  {
    TrainExtracted(x);
    ExtractedWellFormed(TrainDataset(x));
    MatrixToList(x);
    var audio := Array([2, 3], x);
    ConvertMap([("audio", audio)]);
    ConvertMap([("train", Map([("audio", audio)]))]);
    var inner := Convert(Map([("audio", audio)]));
    assert inner.entries == [("audio", Convert(audio))];
    var outer := Convert(Map([("train", Map([("audio", audio)]))]));
    assert outer.entries == [("train", inner)];
  }
}
