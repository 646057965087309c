/** Formatting of validation errors for an API response: duplicates removed, then
    ordered by the properties they concern. */
module ValidationErrors {
  import opened Wrappers
  import opened Sorting
  import Sequences
  import Text

  /** `ValidationError`: a message, the names of the properties it concerns (`None`
      when the list is null) and an optional error code. */
  datatype ValidationError = ValidationError(
    message: string,
    properties: Option<seq<string>>,
    errorCode: Option<string>)

  /** The property half of the de-duplication key: the property names joined with
      "+", or the empty string when the list is null. */
  function PropertyKey(e: ValidationError): (r: string)
    ensures e.properties.None? ==> r == ""
    ensures e.properties == Some([]) ==> r == ""
    ensures e.properties.Some? && |e.properties.value| == 1 ==> r == e.properties.value[0]
    ensures e.properties.Some? && |e.properties.value| > 0 ==> e.properties.value[0] <= r
    ensures e.properties.Some? ==> r == Text.Join("+", e.properties.value)
  {
    match e.properties
    case None => ""
    case Some(names) => Text.Join("+", names)
  }

  /** The de-duplication key: the message together with the joined property names. */
  function ErrorKey(e: ValidationError): (r: (string, string))
    ensures r.0 == e.message && r.1 == PropertyKey(e)
  {
    (e.message, PropertyKey(e))
  }

  /** The error code plays no part in de-duplication: errors that differ only in their
      codes share a key, so only the first of them is kept. */
  lemma KeyIgnoresErrorCode(e: ValidationError, code: Option<string>)
    ensures ErrorKey(e.(errorCode := code)) == ErrorKey(e)
  {
  }

  /** The keys occurring in `s`. */
  function KeysOf(s: seq<ValidationError>): (r: set<(string, string)>)
    ensures forall i :: 0 <= i < |s| ==> ErrorKey(s[i]) in r
    ensures forall k :: k in r ==> exists i :: 0 <= i < |s| && ErrorKey(s[i]) == k
  {
    if s == [] then {} else {ErrorKey(s[0])} + KeysOf(s[1..])
  }

  /** The position of the first error in `s` with key `k`, or `|s|` when there is none.
      It is `Sequences.FirstIndex` with `|s|` standing for "none" (see
      `FirstIndexOfKeyIsFirstIndex`): a plain number keeps the indexing in
      `DedupedFrom` free of option unwrapping. */
  function FirstIndexOfKey(s: seq<ValidationError>, k: (string, string)): (r: nat)
    ensures r <= |s|
    ensures r < |s| ==> ErrorKey(s[r]) == k
    ensures forall j :: 0 <= j < r ==> ErrorKey(s[j]) != k
  {
    if s == [] then 0
    else if ErrorKey(s[0]) == k then 0
    else 1 + FirstIndexOfKey(s[1..], k)
  }

  /** `FirstIndexOfKey` is the first-match search for key `k`, with `|s|` for none. */
  lemma {:induction false} FirstIndexOfKeyIsFirstIndex(s: seq<ValidationError>, k: (string, string))
    ensures FirstIndexOfKey(s, k)
      == match Sequences.FirstIndex(s, e => ErrorKey(e) == k)
         case None => |s|
         case Some(i) => i
  {
    if s != [] && ErrorKey(s[0]) != k {
      FirstIndexOfKeyIsFirstIndex(s[1..], k);
    }
  }

  /** What de-duplication promises of `r` against its input `s` and the keys already
      `seen`: no key twice and none of `seen`; every error of `r` is the first input
      error with its key; every unseen input key is present; and the errors come in the
      order in which their keys first occur. */
  ghost predicate DedupedFrom(r: seq<ValidationError>, s: seq<ValidationError>, seen: set<(string, string)>)
  {
    && (forall i, j :: 0 <= i < j < |r| ==> ErrorKey(r[i]) != ErrorKey(r[j]))
    && (forall i :: 0 <= i < |r| ==> ErrorKey(r[i]) !in seen)
    && (forall i :: 0 <= i < |r| ==>
          FirstIndexOfKey(s, ErrorKey(r[i])) < |s| && s[FirstIndexOfKey(s, ErrorKey(r[i]))] == r[i])
    && (forall i :: 0 <= i < |s| && ErrorKey(s[i]) !in seen ==> ErrorKey(s[i]) in KeysOf(r))
    && (forall i, j :: 0 <= i < j < |r| ==>
          FirstIndexOfKey(s, ErrorKey(r[i])) < FirstIndexOfKey(s, ErrorKey(r[j])))
  }

  /** `GroupBy(key).Select(g => g.FirstOrDefault())`: the first error of every key not
      in `seen`, in the order in which the keys first occur. */
  function FirstOfEachKey(s: seq<ValidationError>, seen: set<(string, string)>): (r: seq<ValidationError>)
    ensures DedupedFrom(r, s, seen)
  {
    if s == [] then []
    else if ErrorKey(s[0]) in seen then
      var r := FirstOfEachKey(s[1..], seen);
      SkipDuplicate(r, s, seen);
      r
    else
      var rest := FirstOfEachKey(s[1..], seen + {ErrorKey(s[0])});
      KeepFirst(rest, s, seen);
      [s[0]] + rest
  }

  lemma {:induction false} SkipDuplicate(r: seq<ValidationError>, s: seq<ValidationError>, seen: set<(string, string)>)
    requires s != [] && ErrorKey(s[0]) in seen
    requires DedupedFrom(r, s[1..], seen)
    ensures DedupedFrom(r, s, seen)
  {
    forall i | 0 <= i < |r|
      ensures FirstIndexOfKey(s, ErrorKey(r[i])) == 1 + FirstIndexOfKey(s[1..], ErrorKey(r[i]))
    {
    }
    forall i | 0 <= i < |s| && ErrorKey(s[i]) !in seen
      ensures ErrorKey(s[i]) in KeysOf(r)
    {
      assert s[i] == s[1..][i - 1];
    }
  }

  lemma {:induction false} KeepFirst(rest: seq<ValidationError>, s: seq<ValidationError>, seen: set<(string, string)>)
    requires s != [] && ErrorKey(s[0]) !in seen
    requires DedupedFrom(rest, s[1..], seen + {ErrorKey(s[0])})
    ensures DedupedFrom([s[0]] + rest, s, seen)
  {
    KeepFirstShift(rest, s, seen);
    KeepFirstOrder(rest, s, seen);
    KeepFirstComplete(rest, s, seen);
    KeepFirstMembers(rest, s, seen);
  }

  lemma {:induction false} KeepFirstShift(rest: seq<ValidationError>, s: seq<ValidationError>, seen: set<(string, string)>)
    requires s != [] && ErrorKey(s[0]) !in seen
    requires DedupedFrom(rest, s[1..], seen + {ErrorKey(s[0])})
    ensures forall i :: 0 <= i < |rest| ==>
      FirstIndexOfKey(s, ErrorKey(rest[i])) == 1 + FirstIndexOfKey(s[1..], ErrorKey(rest[i]))
  {
    forall i | 0 <= i < |rest|
      ensures FirstIndexOfKey(s, ErrorKey(rest[i])) == 1 + FirstIndexOfKey(s[1..], ErrorKey(rest[i]))
    {
      assert ErrorKey(rest[i]) != ErrorKey(s[0]);
    }
  }

  lemma {:induction false} KeepFirstMembers(rest: seq<ValidationError>, s: seq<ValidationError>, seen: set<(string, string)>)
    requires s != [] && ErrorKey(s[0]) !in seen
    requires DedupedFrom(rest, s[1..], seen + {ErrorKey(s[0])})
    requires forall i :: 0 <= i < |rest| ==>
      FirstIndexOfKey(s, ErrorKey(rest[i])) == 1 + FirstIndexOfKey(s[1..], ErrorKey(rest[i]))
    ensures forall i :: 0 <= i < |[s[0]] + rest| ==>
      && ErrorKey(([s[0]] + rest)[i]) !in seen
      && FirstIndexOfKey(s, ErrorKey(([s[0]] + rest)[i])) < |s|
      && s[FirstIndexOfKey(s, ErrorKey(([s[0]] + rest)[i]))] == ([s[0]] + rest)[i]
  {
    var r := [s[0]] + rest;
    forall i | 0 <= i < |r|
      ensures ErrorKey(r[i]) !in seen
      ensures FirstIndexOfKey(s, ErrorKey(r[i])) < |s| && s[FirstIndexOfKey(s, ErrorKey(r[i]))] == r[i]
    {
      if i > 0 {
        assert r[i] == rest[i - 1];
        var k := FirstIndexOfKey(s[1..], ErrorKey(rest[i - 1]));
        assert s[1..][k] == rest[i - 1];
      }
    }
  }

  lemma {:induction false} KeepFirstOrder(rest: seq<ValidationError>, s: seq<ValidationError>, seen: set<(string, string)>)
    requires s != [] && ErrorKey(s[0]) !in seen
    requires DedupedFrom(rest, s[1..], seen + {ErrorKey(s[0])})
    requires forall i :: 0 <= i < |rest| ==>
      FirstIndexOfKey(s, ErrorKey(rest[i])) == 1 + FirstIndexOfKey(s[1..], ErrorKey(rest[i]))
    ensures forall i, j :: 0 <= i < j < |[s[0]] + rest| ==>
      ErrorKey(([s[0]] + rest)[i]) != ErrorKey(([s[0]] + rest)[j])
      && FirstIndexOfKey(s, ErrorKey(([s[0]] + rest)[i])) < FirstIndexOfKey(s, ErrorKey(([s[0]] + rest)[j]))
  {
    var r := [s[0]] + rest;
    forall i, j | 0 <= i < j < |r|
      ensures ErrorKey(r[i]) != ErrorKey(r[j])
      ensures FirstIndexOfKey(s, ErrorKey(r[i])) < FirstIndexOfKey(s, ErrorKey(r[j]))
    {
      assert r[j] == rest[j - 1];
      if i > 0 {
        assert r[i] == rest[i - 1];
      }
    }
  }

  lemma {:induction false} KeepFirstComplete(rest: seq<ValidationError>, s: seq<ValidationError>, seen: set<(string, string)>)
    requires s != [] && ErrorKey(s[0]) !in seen
    requires DedupedFrom(rest, s[1..], seen + {ErrorKey(s[0])})
    ensures forall i :: 0 <= i < |s| && ErrorKey(s[i]) !in seen ==> ErrorKey(s[i]) in KeysOf([s[0]] + rest)
  {
    var r := [s[0]] + rest;
    assert KeysOf(r) == {ErrorKey(s[0])} + KeysOf(rest) by {
      assert r[1..] == rest;
    }
    forall i | 0 <= i < |s| && ErrorKey(s[i]) !in seen
      ensures ErrorKey(s[i]) in KeysOf(r)
    {
      if i > 0 && ErrorKey(s[i]) != ErrorKey(s[0]) {
        assert s[i] == s[1..][i - 1];
      }
    }
  }

  /** The sort key of `OrderBy(g => g.Key.propKey)`. The culture-sensitive string
      comparer is abstracted as a rank: two property keys compare as their ranks do. */
  function PropertyRank(rank: string -> int): ValidationError -> int
  {
    e => rank(PropertyKey(e))
  }

  /** The order `FormatValidationErrors` promises between two formatted errors: their
      keys differ, and when their property keys rank equally the one whose key occurs
      first in the input comes first. */
  function FormattedBefore(s: seq<ValidationError>, rank: string -> int): (ValidationError, ValidationError) -> bool
  {
    (a: ValidationError, b: ValidationError) =>
      ErrorKey(a) != ErrorKey(b)
      && (rank(PropertyKey(a)) == rank(PropertyKey(b)) ==>
            FirstIndexOfKey(s, ErrorKey(a)) < FirstIndexOfKey(s, ErrorKey(b)))
  }

  /** `FormatValidationErrors`: a null list formats as empty; otherwise the first error
      of every (message, properties) key, ordered by the property key, with errors whose
      property keys rank equally kept in the order their keys first occur. */
  function FormatValidationErrors(errors: Option<seq<ValidationError>>, rank: string -> int): (r: seq<ValidationError>)
    ensures errors.None? ==> r == []
    ensures errors.Some? ==> forall i, j :: 0 <= i < j < |r| ==> ErrorKey(r[i]) != ErrorKey(r[j])
    ensures errors.Some? ==> forall i :: 0 <= i < |r| ==>
      FirstIndexOfKey(errors.value, ErrorKey(r[i])) < |errors.value|
      && errors.value[FirstIndexOfKey(errors.value, ErrorKey(r[i]))] == r[i]
    ensures errors.Some? ==> forall i :: 0 <= i < |errors.value| ==> ErrorKey(errors.value[i]) in KeysOf(r)
    ensures SortedBy(r, PropertyRank(rank))
    ensures errors.Some? ==> forall i, j :: 0 <= i < j < |r| ==>
      rank(PropertyKey(r[i])) == rank(PropertyKey(r[j])) ==>
        FirstIndexOfKey(errors.value, ErrorKey(r[i])) < FirstIndexOfKey(errors.value, ErrorKey(r[j]))
    ensures |r| == 0 <==> errors.None? || |errors.value| == 0
  {
    match errors
    case None => []
    case Some(s) =>
      var firsts := FirstOfEachKey(s, {});
      var sorted := SortByKey(firsts, PropertyRank(rank));
      FormatFacts(s, rank, firsts, sorted);
      sorted
  }

  lemma {:induction false} FormatFacts(
    s: seq<ValidationError>,
    rank: string -> int,
    firsts: seq<ValidationError>,
    sorted: seq<ValidationError>)
    requires firsts == FirstOfEachKey(s, {})
    requires sorted == SortByKey(firsts, PropertyRank(rank))
    ensures Pairwise(sorted, FormattedBefore(s, rank))
    ensures forall i :: 0 <= i < |sorted| ==>
      FirstIndexOfKey(s, ErrorKey(sorted[i])) < |s| && s[FirstIndexOfKey(s, ErrorKey(sorted[i]))] == sorted[i]
    ensures forall i :: 0 <= i < |s| ==> ErrorKey(s[i]) in KeysOf(sorted)
    ensures |sorted| == 0 <==> |s| == 0
  {
    SortedOrder(s, rank, firsts, sorted);
    SortedMembers(s, firsts, sorted);
    SortedKeys(s, firsts, sorted);
    if |s| > 0 {
      assert ErrorKey(s[0]) in KeysOf(sorted);
    }
  }

  lemma {:induction false} SortedOrder(
    s: seq<ValidationError>,
    rank: string -> int,
    firsts: seq<ValidationError>,
    sorted: seq<ValidationError>)
    requires DedupedFrom(firsts, s, {})
    requires sorted == SortByKey(firsts, PropertyRank(rank))
    ensures Pairwise(sorted, FormattedBefore(s, rank))
  {
    var before := FormattedBefore(s, rank);
    var key := PropertyRank(rank);
    assert Pairwise(firsts, before);
    assert ImpliedByKeyOrder(firsts, key, before);
    SortKeepsPairwise(firsts, key, before);
  }

  lemma {:induction false} SortedMembers(s: seq<ValidationError>, firsts: seq<ValidationError>, sorted: seq<ValidationError>)
    requires DedupedFrom(firsts, s, {})
    requires multiset(sorted) == multiset(firsts)
    ensures forall i :: 0 <= i < |sorted| ==>
      FirstIndexOfKey(s, ErrorKey(sorted[i])) < |s| && s[FirstIndexOfKey(s, ErrorKey(sorted[i]))] == sorted[i]
  {
    forall i | 0 <= i < |sorted|
      ensures FirstIndexOfKey(s, ErrorKey(sorted[i])) < |s| && s[FirstIndexOfKey(s, ErrorKey(sorted[i]))] == sorted[i]
    {
      assert sorted[i] in multiset(firsts);
      var m :| 0 <= m < |firsts| && firsts[m] == sorted[i];
    }
  }

  lemma {:induction false} SortedKeys(s: seq<ValidationError>, firsts: seq<ValidationError>, sorted: seq<ValidationError>)
    requires DedupedFrom(firsts, s, {})
    requires multiset(sorted) == multiset(firsts)
    ensures forall i :: 0 <= i < |s| ==> ErrorKey(s[i]) in KeysOf(sorted)
  {
    forall i | 0 <= i < |s|
      ensures ErrorKey(s[i]) in KeysOf(sorted)
    {
      assert ErrorKey(s[i]) in KeysOf(firsts);
      var m :| 0 <= m < |firsts| && ErrorKey(firsts[m]) == ErrorKey(s[i]);
      assert firsts[m] in multiset(sorted);
      var n :| 0 <= n < |sorted| && sorted[n] == firsts[m];
    }
  }

  /** A null property list and an empty one give the same key, so two errors with one
      message that differ only that way are merged into the first of them. */
  lemma NullAndEmptyPropertiesMerge(message: string, code: string, rank: string -> int)
    ensures FormatValidationErrors(
              Some([ValidationError(message, None, None), ValidationError(message, Some([]), Some(code))]), rank)
            == [ValidationError(message, None, None)]
  {
    var s := [ValidationError(message, None, None), ValidationError(message, Some([]), Some(code))];
    var r := FormatValidationErrors(Some(s), rank);
    assert ErrorKey(s[0]) == ErrorKey(s[1]);
    assert FirstIndexOfKey(s, ErrorKey(s[0])) == 0;
    assert |r| > 0;
    forall i | 0 <= i < |r|
      ensures r[i] == s[0]
    {
      var k := FirstIndexOfKey(s, ErrorKey(r[i]));
      assert k == 0 || k == 1;
    }
    assert |r| <= 1;
  }

  /** A single error is formatted to itself. */
  lemma FormatSingleton(e: ValidationError, rank: string -> int)
    ensures FormatValidationErrors(Some([e]), rank) == [e]
  {
    var s := [e];
    var r := FormatValidationErrors(Some(s), rank);
    assert |r| > 0;
    forall i | 0 <= i < |r|
      ensures r[i] == e
    {
      assert FirstIndexOfKey(s, ErrorKey(r[i])) == 0;
    }
    assert |r| <= 1;
  }

  /** Property names are joined before comparison, so an error on the two properties
      "a" and "b" has the same key as one on a single property named "a+b". */
  lemma JoinedPropertiesCollide(message: string)
    ensures ErrorKey(ValidationError(message, Some(["a", "b"]), None))
            == ErrorKey(ValidationError(message, Some(["a+b"]), None))
  {
    Text.JoinTwo("+", "a", "b");
    assert "a" + "+" + "b" == "a+b";
  }
}
