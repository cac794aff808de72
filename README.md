# Dataset extraction script, modelled in Dafny

The script loads a pickled dataset, a dict of fields whose values are
dicts of sub-fields. It builds a copy that keeps, for every field, only the
sub-fields named in a fixed allowlist: `audio`, `vision`, `id`, `text`,
`classification_labels` and `regression_labels`. In mode 1 it turns every
numpy array in that copy into nested lists and writes the copy as JSON.

This project models the three parts of `script.py` that decide values:

- `convert_ndarray_to_list`, the recursive normaliser. It is in
  `normalize.dfy` as the function `Convert`. An array becomes nested lists in
  row-major order (`ToList`). A dict or a list is rebuilt with each value
  converted, and everything else passes through unchanged.
- `inspect_dataset`, the allowlist extraction, without its printing. It is in
  `inspect.dfy`. `InspectDataset` is a method with the source's two nested
  `for` loops, `continue`s and dict assignments. It is proved equal to
  `Extracted`, a filter stated as a function, and lemmas about that function
  state what the result holds.
- The return logic of `main`. It is in `pipeline.dfy` as the method `Run`.

Python values are the datatype `Value` in `values.dfy`, with these
constructors:

- `Array(dims, data)`: a numpy array with its shape and row-major elements.
- `Seq(items)`: a list.
- `Map(entries)`: a dict, stored as an ordered sequence of key/value pairs
  because dicts keep insertion order.
- `Other(scalar)`: a number, string, boolean, `None`, or a tuple of these.

`Assign` and `Get` give a dict's item assignment (`d[k] = v`, which
overwrites in place or appends) and its item lookup (`d[k]`). `WellFormed`
states two facts that every real Python value meets: dict keys are unique,
and an array holds as many elements as its shape says. The members that
take a dataset require it.

## Model

| member | source | states |
|---|---|---|
| `Values.KeysOf` | script.py:34 | `list(d.keys())`: one key per pair, the i-th key being the key of the i-th pair, in insertion order |
| `Values.Get` | script.py:57 | `d[k]` is a value stored under `k` in `d`; `Values.GetAt` states which one |
| `Values.Assign` | script.py:40 | after `d[k] = v`, `d[k]` is `v` and every other key keeps its value; the key order is unchanged when `k` was already a key, and otherwise `k` is appended at the end |
| `Values.AssignFresh` | script.py:40 | definitional equation of `Assign` on a key that is not yet present: the pair is appended at the end |
| `Values.AssignLast` | script.py:69 | re-assigning the most recently added key replaces its value in place and changes nothing else |
| `Values.GetAt` | script.py:42 | the contract of `Get`: in a dict with unique keys, looking up the i-th key of `d.keys()` yields the i-th value |
| `Normalize.ToList` | script.py:9-10 | `tolist()` yields a tree with no arrays left, made only of lists and scalars |
| `Normalize.ToListShape` | script.py:9-10 | an array of shape `dims` becomes lists nested to exactly that shape, whose scalars read in order are the array's row-major elements |
| `Normalize.ToListMatrix` | script.py:9-10 | a shape `(a, b)` array becomes `a` lists of length `b`, with entry `[i][j]` equal to element `i*b + j` |
| `Normalize.Convert` | script.py:5-16 | the result holds no arrays; a dict stays a dict with the same keys in the same order; a list keeps its length; any other value is returned unchanged |
| `Normalize.ConvertMap` | script.py:11-12 | definitional equation of `Convert` on a dict: pair i of the result is key i with its value converted |
| `Normalize.ConvertGet` | script.py:11-12 | looking up a key in the converted dict gives the conversion of the original value under that key |
| `Normalize.ConvertSeq` | script.py:13-14 | definitional equation of `Convert` on a list: element i of the result is element i converted |
| `Normalize.ConvertArrayFree` | script.py:15-16 | a tree with no arrays comes back unchanged |
| `Normalize.ConvertIdempotent` | script.py:5-16 | converting an already converted tree changes nothing |
| `Inspect.Keep` | script.py:56-69 | the kept sub-fields are at most as many as the original ones, and all their keys are in the allowlist |
| `Inspect.KeepMember` | script.py:68-69 | a sub-field pair is kept if and only if it was in the field and its key is in the allowlist |
| `Inspect.KeepAppend` | script.py:56-69 | filtering a concatenation filters each part in turn, so kept sub-fields stay in source order |
| `Inspect.KeepDistinct` | script.py:68-69 | the filtered sub-field dict still has unique keys |
| `Inspect.KeepGet` | script.py:68-69 | a sub-field is in the filtered dict if and only if it is in the original and in the allowlist, and then it holds the original value |
| `Inspect.ExtractField` | script.py:40-69 | what one field becomes: `{}` when its value is not a dict, otherwise at most as many sub-fields as it had, all of them allowlisted |
| `Inspect.Extracted` | script.py:29-40 | a non-dict dataset gives `{}`; otherwise the result has exactly the dataset's top-level keys in the same order, each mapped to a dict |
| `Inspect.ExtractedGet` | script.py:37-69 | every field of a dict dataset is in the result. A non-dict or empty field maps to `{}`. Otherwise a sub-field is present if and only if the original has it and it is allowlisted, and it keeps its original value |
| `Inspect.ExtractedWellFormed` | script.py:37-72 | the extracted dict of a well-formed dataset is well formed, so it can be normalised |
| `Inspect.KeepStep` | script.py:68-69 | appending an allowlisted sub-field to the filtered first j sub-fields gives the filtered first j + 1 sub-fields |
| `Inspect.CopySubField` | script.py:69 | `result[field][sub_field] = data_point` on an allowlisted sub-field extends the field's filtered prefix by that one pair |
| `Inspect.SkipSubField` | script.py:68 | a sub-field outside the allowlist leaves the field's filtered prefix unchanged |
| `Inspect.InspectDataset` | script.py:18-72 | the dict built by the nested loops, with their `continue`s and in-place assignments, equals `Extracted(dataset)` |
| `Pipeline.Run` | script.py:93-109 | when loading yields `None` (a failed load, or a pickle holding `None`) it returns `None` and writes nothing. Mode 0 returns the extracted dict and writes nothing. Any non-zero mode writes the converted extracted dict, which holds no arrays, and returns `{}` |
| `Pipeline.TrainExtracted` | script.py:56-69 | for `{"train": {"audio": <2x3 array>, "caption": "hi"}}` the extraction is `{"train": {"audio": <the array>}}` |
| `Pipeline.MatrixToList` | script.py:9-10 | a 2x3 array becomes two lists of three scalars in row-major order |
| `Pipeline.TrainWritten` | script.py:97-103 | in mode 1 that example writes `{"train": {"audio": [[x0, x1, x2], [x3, x4, x5]]}}` |

## Left out

- `read_pkl_file` (script.py:74-91): file opening and unpickling are I/O. Its return value is the `loaded` parameter of `Run`, where Python's `None` is `Other(NoneValue)`.
- The JSON file write (script.py:100-103): the file name, the 4-space indentation and the encoder are not modelled. The value handed to `json.dump` is the `written` out-parameter of `Run`.
- All console output (script.py:30, 35, 43, 49, 52-54, 58-67, 71). This includes the `.shape` probe under `try/except AttributeError`, which only chooses what to print.
- Array element values are opaque scalars. Floats are exact reals here, so float precision and numpy scalar types are not modelled.
- `Other` holds only scalars and tuples of scalars. A tuple that contains an array or a dict is not modelled. The normaliser does not recurse into tuples, so such an array would reach the JSON encoder unconverted.
- Dict keys are strings. The source accepts any hashable key.
- Error paths that raise: `json.dump` raises `TypeError` (script.py:102) for a value it cannot encode that the normaliser passes through unchanged, such as a numpy scalar, `bytes` or a set. It does so after the output file has been opened (script.py:101). A list that contains itself makes the normaliser raise `RecursionError` (script.py:14). `Value` cannot hold such values or cycles, so `NoArrays` only says that no array is left, and the model does not capture these exceptions or the partly written file.
- Python's reference semantics: the extracted dict shares its sub-field values with the dataset, and the model copies values. No code path mutates those values, so the results are equal.
- `Run` models `mode` as an integer that is truthy when it is non-zero. Other truthy objects are not modelled.
