/**
  `S3UploadParams` and the `parse` closure of `s3UploadParams`, which turns the
  JSON returned by the upload-form-fields endpoints into upload parameters.

  The JSON follows the S3 POST-policy layout: an "options" object holding the
  encoded policy, the object key, the signature and the bucket URL, and a
  "policy" object whose "conditions" array holds small dictionaries; the ACL,
  the credential, the signing algorithm and the date are scattered over those
  dictionaries.

  `ParsedParams` is the specification (what the closure returns, stated as
  functions of the input), `Parse` is the closure itself with its nested loops
  and four optional accumulators, and the lemmas state the closure's success
  and failure boundaries directly on the raw JSON.
 */
module UploadParams {
  import opened Wrappers
  import opened JsonValue

  /** The signed upload parameters (all eight are plain strings; the parser
      checks their type only, so empty strings are accepted). */
  datatype S3UploadParams = S3UploadParams(
    url: string,
    key: string,
    acl: string,
    algorithm: string,
    signature: string,
    date: string,
    credential: string,
    encodedPolicy: string)

  /** The four condition keys the closure's `switch` recognises. */
  const ConditionKeys: set<string> := {"acl", "x-amz-credential", "x-amz-algorithm", "x-amz-date"}

  /** What the chain of `if let` casts binds before the loops start. */
  datatype Envelope = Envelope(
    encodedPolicy: string,
    key: string,
    signature: string,
    url: string,
    conditions: seq<Dictionary>)

  /** The `if let` casts: "options" must be a dictionary holding the string
      fields "encoded_policy", "key", "signature", "url" and a dictionary
      "policy" whose "conditions" is an array of dictionaries. */
  function EnvelopeOf(data: Dictionary): Option<Envelope>
  {
    match DictionaryAt(data, "options")
    case None => None
    case Some(options) =>
      var encodedPolicy := StringAt(options, "encoded_policy");
      var key := StringAt(options, "key");
      var signature := StringAt(options, "signature");
      var url := StringAt(options, "url");
      var policy := DictionaryAt(options, "policy");
      if encodedPolicy.Some? && key.Some? && signature.Some? && url.Some? && policy.Some? then
        match DictionaryArrayAt(policy.value, "conditions")
        case None => None
        case Some(conditions) =>
          Some(Envelope(encodedPolicy.value, key.value, signature.value, url.value, conditions))
      else
        None
  }

  /** The index of the last condition dictionary that holds key `k`, if any. */
  function LastOccurrence(conditions: seq<Dictionary>, k: string): (r: Option<nat>)
    ensures r.Some? ==> r.value < |conditions| && k in conditions[r.value]
    ensures r.Some? ==> forall j :: r.value < j < |conditions| ==> k !in conditions[j]
    ensures r.None? <==> forall j :: 0 <= j < |conditions| ==> k !in conditions[j]
    decreases |conditions|
  {
    if conditions == [] then None
    else if k in conditions[|conditions| - 1] then Some(|conditions| - 1)
    else LastOccurrence(conditions[..|conditions| - 1], k)
  }

  /** The value an accumulator holds once the loops have visited every
      dictionary of `conditions`: every visit of key `k` overwrites it with
      `value as? String`, so the last dictionary holding `k` decides, and a
      non-string there leaves it nil. */
  function Accumulated(conditions: seq<Dictionary>, k: string): Option<string>
  {
    match LastOccurrence(conditions, k)
    case None => None
    case Some(i) => AsString(conditions[i][k])
  }

  /** What `parse` returns for `data`. */
  function ParsedParams(data: Dictionary): Option<S3UploadParams>
  {
    match EnvelopeOf(data)
    case None => None
    case Some(e) =>
      var acl := Accumulated(e.conditions, "acl");
      var credential := Accumulated(e.conditions, "x-amz-credential");
      var algorithm := Accumulated(e.conditions, "x-amz-algorithm");
      var date := Accumulated(e.conditions, "x-amz-date");
      if acl.Some? && credential.Some? && algorithm.Some? && date.Some? then
        Some(S3UploadParams(e.url, e.key, acl.value, algorithm.value, e.signature,
                            date.value, credential.value, e.encodedPolicy))
      else
        None
  }

  /** The `parse` closure: the `if let` casts, then the nested `for` loops over
      the condition dictionaries and over each dictionary's entries, updating
      four optional accumulators. A Swift dictionary is visited in no
      particular order, so the inner loop picks its next key arbitrarily. */
  method Parse(data: Dictionary) returns (r: Option<S3UploadParams>)
    ensures r == ParsedParams(data)
  {
    var options := DictionaryAt(data, "options");
    if options.Some? {
      var encodedPolicy := StringAt(options.value, "encoded_policy");
      var key := StringAt(options.value, "key");
      var signature := StringAt(options.value, "signature");
      var url := StringAt(options.value, "url");
      var policy := DictionaryAt(options.value, "policy");
      if encodedPolicy.Some? && key.Some? && signature.Some? && url.Some? && policy.Some? {
        var conditions := DictionaryArrayAt(policy.value, "conditions");
        if conditions.Some? {
          var conds := conditions.value;
          assert EnvelopeOf(data) == Some(Envelope(encodedPolicy.value, key.value, signature.value, url.value, conds));
          var acl: Option<string> := None;
          var credential: Option<string> := None;
          var algorithm: Option<string> := None;
          var date: Option<string> := None;

          for i := 0 to |conds|
            invariant acl == Accumulated(conds[..i], "acl")
            invariant credential == Accumulated(conds[..i], "x-amz-credential")
            invariant algorithm == Accumulated(conds[..i], "x-amz-algorithm")
            invariant date == Accumulated(conds[..i], "x-amz-date")
          {
            var dict := conds[i];
            var rest := dict.Keys;
            while rest != {}
              invariant rest <= dict.Keys
              invariant acl == Visited(dict, rest, "acl", Accumulated(conds[..i], "acl"))
              invariant credential == Visited(dict, rest, "x-amz-credential", Accumulated(conds[..i], "x-amz-credential"))
              invariant algorithm == Visited(dict, rest, "x-amz-algorithm", Accumulated(conds[..i], "x-amz-algorithm"))
              invariant date == Visited(dict, rest, "x-amz-date", Accumulated(conds[..i], "x-amz-date"))
              decreases rest
            {
              var k :| k in rest;
              var value := dict[k];
              if k == "acl" {
                acl := AsString(value);
              } else if k == "x-amz-credential" {
                credential := AsString(value);
              } else if k == "x-amz-algorithm" {
                algorithm := AsString(value);
              } else if k == "x-amz-date" {
                date := AsString(value);
              }
              rest := rest - {k};
            }
            AccumulatedStep(conds, i, "acl");
            AccumulatedStep(conds, i, "x-amz-credential");
            AccumulatedStep(conds, i, "x-amz-algorithm");
            AccumulatedStep(conds, i, "x-amz-date");
          }
          assert conds[..|conds|] == conds;

          if acl.Some? && credential.Some? && algorithm.Some? && date.Some? {
            return Some(S3UploadParams(url.value, key.value, acl.value, algorithm.value,
                                       signature.value, date.value, credential.value,
                                       encodedPolicy.value));
          }
        }
      }
    }
    return None;
  }

  /** An accumulator's value part-way through one dictionary: `before` until
      the dictionary's entry for `k` has been visited (it is no longer in
      `rest`), that entry's `as? String` afterwards. */
  function Visited(dict: Dictionary, rest: set<string>, k: string, before: Option<string>): Option<string>
  {
    if k in dict && k !in rest then AsString(dict[k]) else before
  }

  /** Visiting one more dictionary: its entry for `k`, if any, overrides. */
  lemma AccumulatedStep(conds: seq<Dictionary>, i: nat, k: string)
    requires i < |conds|
    ensures Accumulated(conds[..i + 1], k)
         == if k in conds[i] then AsString(conds[i][k]) else Accumulated(conds[..i], k)
  {
    assert conds[..i + 1][..i] == conds[..i];
  }

  /* ---------------------------------------------------------------------
     What the closure promises, stated directly on the raw JSON.
     --------------------------------------------------------------------- */

  /** Dictionary `d` maps `f` to a string. */
  ghost predicate HasString(d: Dictionary, f: string)
  {
    f in d && d[f].JStr?
  }

  /** JSON value `j` is a dictionary that holds key `k`. */
  ghost predicate Holds(j: Json, k: string)
  {
    j.JObj? && k in j.fields
  }

  /** The shape every `if let` of the closure demands. */
  ghost predicate WellShaped(data: Dictionary)
  {
    && "options" in data && data["options"].JObj?
    && HasString(data["options"].fields, "encoded_policy")
    && HasString(data["options"].fields, "key")
    && HasString(data["options"].fields, "signature")
    && HasString(data["options"].fields, "url")
    && "policy" in data["options"].fields
    && data["options"].fields["policy"].JObj?
    && "conditions" in data["options"].fields["policy"].fields
    && data["options"].fields["policy"].fields["conditions"].JArr?
    && forall c :: c in data["options"].fields["policy"].fields["conditions"].items ==> c.JObj?
  }

  /** `data["options"]` of a well-shaped document. */
  ghost function Options(data: Dictionary): Dictionary
    requires WellShaped(data)
  {
    data["options"].fields
  }

  /** The elements of `policy.conditions` of a well-shaped document. */
  ghost function ConditionItems(data: Dictionary): seq<Json>
    requires WellShaped(data)
  {
    Options(data)["policy"].fields["conditions"].items
  }

  /** `v` is the value of key `k` in the last element of `items` that holds `k`. */
  ghost predicate LastIs(items: seq<Json>, k: string, v: Json)
  {
    exists i :: 0 <= i < |items| && Holds(items[i], k) && items[i].fields[k] == v
      && forall j :: i < j < |items| ==> !Holds(items[j], k)
  }

  /** No element of `items` holds key `k`. */
  ghost predicate Absent(items: seq<Json>, k: string)
  {
    forall j :: 0 <= j < |items| ==> !Holds(items[j], k)
  }

  /** `items` is the JSON array whose elements are the dictionaries `conds`. */
  ghost predicate Wraps(items: seq<Json>, conds: seq<Dictionary>)
  {
    |items| == |conds| && forall i :: 0 <= i < |items| ==> items[i] == JObj(conds[i])
  }

  /** The `if let` casts succeed exactly on well-shaped documents, and bind
      the fields of "options" and the condition dictionaries unchanged. */
  lemma EnvelopeShape(data: Dictionary)
    ensures EnvelopeOf(data).Some? <==> WellShaped(data)
    ensures EnvelopeOf(data).Some? ==>
      && Options(data)["encoded_policy"] == JStr(EnvelopeOf(data).value.encodedPolicy)
      && Options(data)["key"] == JStr(EnvelopeOf(data).value.key)
      && Options(data)["signature"] == JStr(EnvelopeOf(data).value.signature)
      && Options(data)["url"] == JStr(EnvelopeOf(data).value.url)
      && Wraps(ConditionItems(data), EnvelopeOf(data).value.conditions)
  {
    if "options" in data && data["options"].JObj? && "policy" in data["options"].fields
       && data["options"].fields["policy"].JObj?
       && "conditions" in data["options"].fields["policy"].fields
       && data["options"].fields["policy"].fields["conditions"].JArr?
    {
      var items := data["options"].fields["policy"].fields["conditions"].items;
      assert (forall c :: c in items ==> c.JObj?) <==> (forall i :: 0 <= i < |items| ==> items[i].JObj?);
    }
  }

  /** An accumulator ends up holding string `v` exactly when the last
      condition dictionary that holds its key maps it to the string `v`. */
  lemma {:induction false} AccumulatedIsLast(items: seq<Json>, conds: seq<Dictionary>, k: string, v: string)
    requires Wraps(items, conds)
    ensures Accumulated(conds, k) == Some(v) <==> LastIs(items, k, JStr(v))
  {
    var r := LastOccurrence(conds, k);
    if r.Some? && AsString(conds[r.value][k]) == Some(v) {
      var i := r.value;
      assert Holds(items[i], k) && items[i].fields[k] == JStr(v);
      assert forall j :: i < j < |items| ==> !Holds(items[j], k);
    }
    if LastIs(items, k, JStr(v)) {
      var i :| 0 <= i < |items| && Holds(items[i], k) && items[i].fields[k] == JStr(v)
        && forall j :: i < j < |items| ==> !Holds(items[j], k);
      assert k in conds[i];
      assert forall j :: i < j < |conds| ==> k !in conds[j] by {
        forall j | i < j < |conds| ensures k !in conds[j] {
          assert !Holds(items[j], k);
        }
      }
      assert r == Some(i);
    }
  }

  /** An accumulator ends up nil exactly when no condition dictionary holds
      its key, or the last one that does maps it to something other than a
      string (overwriting any string an earlier dictionary supplied). */
  lemma {:induction false} AccumulatedNone(items: seq<Json>, conds: seq<Dictionary>, k: string)
    requires Wraps(items, conds)
    ensures Accumulated(conds, k).None? <==>
      Absent(items, k) || exists v: Json :: !v.JStr? && LastIs(items, k, v)
  {
    var r := LastOccurrence(conds, k);
    if r.None? {
      forall j | 0 <= j < |items| ensures !Holds(items[j], k) {
        assert k !in conds[j];
      }
    } else {
      var i := r.value;
      assert Holds(items[i], k);
      assert forall j :: i < j < |items| ==> !Holds(items[j], k);
      assert LastIs(items, k, conds[i][k]);
      if exists v: Json :: !v.JStr? && LastIs(items, k, v) {
        var v: Json :| !v.JStr? && LastIs(items, k, v);
        LastIsUnique(items, k, v, conds[i][k]);
      }
    }
  }

  /** Only one value can be the last one for a key. */
  lemma LastIsUnique(items: seq<Json>, k: string, v1: Json, v2: Json)
    requires LastIs(items, k, v1) && LastIs(items, k, v2)
    ensures v1 == v2
  {
    var i1 :| 0 <= i1 < |items| && Holds(items[i1], k) && items[i1].fields[k] == v1
      && forall j :: i1 < j < |items| ==> !Holds(items[j], k);
    var i2 :| 0 <= i2 < |items| && Holds(items[i2], k) && items[i2].fields[k] == v2
      && forall j :: i2 < j < |items| ==> !Holds(items[j], k);
    assert i1 == i2;
  }

  /** `parse` returns `p` exactly when the document is well shaped, `url`,
      `key`, `signature` and `encodedPolicy` are the strings under "options",
      and each of `acl`, `credential`, `algorithm` and `date` is the string of
      the last condition dictionary holding its key. */
  lemma ParsedParamsSpec(data: Dictionary, p: S3UploadParams)
    ensures ParsedParams(data) == Some(p) <==>
      && WellShaped(data)
      && Options(data)["url"] == JStr(p.url)
      && Options(data)["key"] == JStr(p.key)
      && Options(data)["signature"] == JStr(p.signature)
      && Options(data)["encoded_policy"] == JStr(p.encodedPolicy)
      && LastIs(ConditionItems(data), "acl", JStr(p.acl))
      && LastIs(ConditionItems(data), "x-amz-credential", JStr(p.credential))
      && LastIs(ConditionItems(data), "x-amz-algorithm", JStr(p.algorithm))
      && LastIs(ConditionItems(data), "x-amz-date", JStr(p.date))
  {
    EnvelopeShape(data);
    if WellShaped(data) {
      var e := EnvelopeOf(data).value;
      var items := ConditionItems(data);
      AccumulatedIsLast(items, e.conditions, "acl", p.acl);
      AccumulatedIsLast(items, e.conditions, "x-amz-credential", p.credential);
      AccumulatedIsLast(items, e.conditions, "x-amz-algorithm", p.algorithm);
      AccumulatedIsLast(items, e.conditions, "x-amz-date", p.date);
    }
  }

  /** `parse` returns nil when the document is not well shaped, or when for
      one of the four condition keys no dictionary holds it or the last one
      holding it does not map it to a string: no partial result is built. */
  lemma ParseFailures(data: Dictionary, k: string)
    requires k in ConditionKeys
    ensures !WellShaped(data) ==> ParsedParams(data) == None
    ensures WellShaped(data) && (Absent(ConditionItems(data), k)
                                 || exists v: Json :: !v.JStr? && LastIs(ConditionItems(data), k, v))
            ==> ParsedParams(data) == None
  {
    EnvelopeShape(data);
    if WellShaped(data) {
      AccumulatedNone(ConditionItems(data), EnvelopeOf(data).value.conditions, k);
    }
  }

  /** An empty conditions array cannot supply the accumulators, so `parse`
      returns nil. */
  lemma EmptyConditionsFail(data: Dictionary)
    requires WellShaped(data) && ConditionItems(data) == []
    ensures ParsedParams(data) == None
  {
    ParseFailures(data, "acl");
  }

  /** Two condition lists that agree on key `k` wherever it occurs give the
      same accumulated value for `k`. */
  lemma {:induction false} AccumulatedOnlyReadsKey(c1: seq<Dictionary>, c2: seq<Dictionary>, k: string)
    requires |c1| == |c2|
    requires forall i :: 0 <= i < |c1| ==> (k in c1[i] <==> k in c2[i])
    requires forall i :: 0 <= i < |c1| && k in c1[i] ==> c1[i][k] == c2[i][k]
    ensures LastOccurrence(c1, k) == LastOccurrence(c2, k)
    ensures Accumulated(c1, k) == Accumulated(c2, k)
    decreases |c1|
  {
    if c1 != [] {
      var n := |c1| - 1;
      if k !in c1[n] {
        AccumulatedOnlyReadsKey(c1[..n], c2[..n], k);
      }
    }
  }

  /** Elements `a` and `b` agree on whether they hold `k` and on its value. */
  ghost predicate SameEntry(a: Json, b: Json, k: string)
  {
    (Holds(a, k) <==> Holds(b, k)) && (Holds(a, k) ==> a.fields[k] == b.fields[k])
  }

  /** Keys of condition dictionaries other than the four recognised ones
      (and every key at all in an otherwise-equal document) do not affect
      the result: documents whose "options" strings agree and whose
      conditions agree entry by entry on the four keys parse alike. */
  lemma UnrecognisedKeysIgnored(d1: Dictionary, d2: Dictionary)
    requires WellShaped(d1) && WellShaped(d2)
    requires forall f :: f in {"encoded_policy", "key", "signature", "url"} ==> Options(d1)[f] == Options(d2)[f]
    requires |ConditionItems(d1)| == |ConditionItems(d2)|
    requires forall i, k :: 0 <= i < |ConditionItems(d1)| && k in ConditionKeys ==>
               SameEntry(ConditionItems(d1)[i], ConditionItems(d2)[i], k)
    ensures ParsedParams(d1) == ParsedParams(d2)
  {
    EnvelopeShape(d1);
    EnvelopeShape(d2);
    var c1 := EnvelopeOf(d1).value.conditions;
    var c2 := EnvelopeOf(d2).value.conditions;
    forall k | k in ConditionKeys ensures Accumulated(c1, k) == Accumulated(c2, k) {
      forall i | 0 <= i < |c1| ensures (k in c1[i] <==> k in c2[i]) && (k in c1[i] ==> c1[i][k] == c2[i][k]) {
        assert SameEntry(ConditionItems(d1)[i], ConditionItems(d2)[i], k);
      }
      AccumulatedOnlyReadsKey(c1, c2, k);
    }
    assert "encoded_policy" in {"encoded_policy", "key", "signature", "url"};
    assert "key" in {"encoded_policy", "key", "signature", "url"};
    assert "signature" in {"encoded_policy", "key", "signature", "url"};
    assert "url" in {"encoded_policy", "key", "signature", "url"};
  }

  /** A response in the S3 POST-policy layout: the four "options" strings
      and one condition dictionary per condition key. */
  function PolicyDocument(p: S3UploadParams): Dictionary
  {
    map["options" := JObj(map[
      "encoded_policy" := JStr(p.encodedPolicy),
      "key" := JStr(p.key),
      "signature" := JStr(p.signature),
      "url" := JStr(p.url),
      "policy" := JObj(map["conditions" := JArr([
        JObj(map["acl" := JStr(p.acl)]),
        JObj(map["x-amz-credential" := JStr(p.credential)]),
        JObj(map["x-amz-algorithm" := JStr(p.algorithm)]),
        JObj(map["x-amz-date" := JStr(p.date)])])])])]
  }

  /** Every parameter set survives the round trip through the S3
      POST-policy layout and `parse`, empty strings included. */
  lemma ParsePolicyDocument(p: S3UploadParams)
    ensures ParsedParams(PolicyDocument(p)) == Some(p)
  {
    var data := PolicyDocument(p);
    var items := ConditionItems(data);
    assert WellShaped(data);
    assert LastIs(items, "acl", JStr(p.acl)) by { assert Holds(items[0], "acl"); }
    assert LastIs(items, "x-amz-credential", JStr(p.credential)) by { assert Holds(items[1], "x-amz-credential"); }
    assert LastIs(items, "x-amz-algorithm", JStr(p.algorithm)) by { assert Holds(items[2], "x-amz-algorithm"); }
    assert LastIs(items, "x-amz-date", JStr(p.date)) by { assert Holds(items[3], "x-amz-date"); }
    ParsedParamsSpec(data, p);
  }
}
