/**
 * `saveAsJSONFile(filePath, data)`: the job analysis cache on disk is read
 * (an empty object when the file is missing or not valid JSON) and every
 * entry of `data` is written into it, key by key, before the whole object is
 * written back.
 */
module JsonCache {
  import opened Wrappers

  /** What `existsSync`, `readFileSync` and `JSON.parse` make of the cache file. */
  datatype Stored<V> =
    | NoFile                           // the file does not exist
    | Unparsable                       // `JSON.parse` throws; the error is only logged
    | Parsed(entries: map<string, V>)  // the file holds a JSON object
    | NotAnObject                      // the file holds `null`, a number, a string or a boolean

  /** What ends up in the file. */
  datatype Saved<V> =
    | Written(entries: map<string, V>) // the merged object
    | KeptValue                        // the non-object value, written back as it was read
    | Threw                            // a property assignment on a non-object throws: nothing is written

  /** `existingData[jobId] = entry` for every entry of `data`: new entries win, other keys are kept. */
  function Merge<V>(existing: map<string, V>, data: map<string, V>): (r: map<string, V>)
    ensures r.Keys == existing.Keys + data.Keys
    ensures forall k :: k in data ==> r[k] == data[k]
    ensures forall k :: k in existing && k !in data ==> r[k] == existing[k]
  {
    existing + data
  }

  /** The object the merge starts from, or `None` when the file holds a JSON value that is not an object. */
  function Existing<V>(stored: Stored<V>): Option<map<string, V>>
  {
    match stored
    case NoFile => Some(map[])
    case Unparsable => Some(map[])
    case Parsed(m) => Some(m)
    case NotAnObject => None
  }

  /** The outcome of `saveAsJSONFile`. */
  function SaveResult<V>(stored: Stored<V>, data: map<string, V>): Saved<V>
  {
    match Existing(stored)
    case Some(m) => Written(Merge(m, data))
    case None => if data == map[] then KeptValue else Threw
  }

  /** The entries of `data` whose keys are not in `rest`. */
  function Without<V>(data: map<string, V>, rest: set<string>): map<string, V>
  {
    map k | k in data && k !in rest :: data[k]
  }

  /** Writing the entry for one more key of `data`. */
  lemma {:induction false} MergeStep<V>(m: map<string, V>, data: map<string, V>, rest: set<string>, k: string)
    requires k in rest && k in data
    ensures Merge(m, Without(data, rest - {k})) == Merge(m, Without(data, rest))[k := data[k]]
  {
  }

  /** `saveAsJSONFile`, with the file system replaced by the stored value and the written result. */
  method SaveAsJsonFile<V>(stored: Stored<V>, data: map<string, V>) returns (saved: Saved<V>)
    ensures saved == SaveResult(stored, data)
  {
    var existingData: map<string, V> := map[];
    var isObject := true;
    match stored {
      case NoFile =>
      case Unparsable =>
      case Parsed(m) => existingData := m;
      case NotAnObject => isObject := false;
    }
    var rest := data.Keys;
    while rest != {}
      invariant rest <= data.Keys
      invariant isObject <==> Existing(stored).Some?
      invariant isObject ==> existingData == Merge(Existing(stored).value, Without(data, rest))
      invariant !isObject ==> rest == data.Keys
      decreases rest
    {
      var jobId :| jobId in rest;
      if !isObject {
        return Threw;
      }
      MergeStep(Existing(stored).value, data, rest, jobId);
      existingData := existingData[jobId := data[jobId]];
      rest := rest - {jobId};
    }
    assert Without(data, rest) == data;
    if isObject {
      saved := Written(existingData);
    } else {
      saved := KeptValue;
    }
  }

  // ---------------------------------------------------------------------------
  // Properties
  // ---------------------------------------------------------------------------

  /** When the file is missing or cannot be parsed, exactly the new data is written. */
  lemma {:induction false} SaveWithoutCache<V>(stored: Stored<V>, data: map<string, V>)
    requires stored.NoFile? || stored.Unparsable?
    ensures SaveResult(stored, data) == Written(data)
  {
    assert Merge(map[], data) == data;
  }

  /** Saving the same data a second time leaves the file as the first save wrote it. */
  lemma {:induction false} SaveTwice<V>(stored: Stored<V>, data: map<string, V>)
    requires SaveResult(stored, data).Written?
    ensures SaveResult(Parsed(SaveResult(stored, data).entries), data) == SaveResult(stored, data)
  {
    var m := Existing(stored).value;
    assert Merge(Merge(m, data), data) == Merge(m, data);
  }
}
