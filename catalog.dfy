/**
 * The catalog as a value: the ordered sequence of movie records that the
 * doubly linked MovieList holds, and the effect of each name- and
 * rating-keyed operation on that sequence.
 */
module Catalog {
  import opened Wrappers

  /** A movie's rating. The program keeps it as a float that it only stores,
      copies and compares with ==, so here it is a value with equality only. */
  type Rating(==)

  /** One movie entry; `name` acts as a key that is not enforced unique. */
  datatype Record = Record(name: string, genre: string, rating: Rating)

  /** Position of the first record, in list order, whose name is exactly `name`. */
  function FindFirst(s: seq<Record>, name: string): (r: Option<nat>)
    ensures r.Some? ==> r.value < |s|
  {
    if |s| == 0 then None
    else if s[0].name == name then Some(0)
    else match FindFirst(s[1..], name)
      case None => None
      case Some(k) => Some(k + 1)
  }

  /** The search reports a position holding the name with no occurrence
      before it, and reports nothing exactly when no record has the name. */
  lemma {:induction false} FindFirstSpec(s: seq<Record>, name: string)
    ensures FindFirst(s, name).Some? ==>
      FindFirst(s, name).value < |s| && s[FindFirst(s, name).value].name == name
    ensures FindFirst(s, name).Some? ==> forall j :: 0 <= j < FindFirst(s, name).value ==> s[j].name != name
    ensures FindFirst(s, name).None? <==> forall j :: 0 <= j < |s| ==> s[j].name != name
  {
    if |s| > 0 && s[0].name != name {
      FindFirstSpec(s[1..], name);
      assert forall j :: 1 <= j < |s| ==> s[j] == s[1..][j - 1];
    }
  }

  /** The records whose rating equals `threshold` exactly, kept in list order. */
  function FilterByRating(s: seq<Record>, threshold: Rating): (r: seq<Record>)
    ensures |r| <= |s|
  {
    if |s| == 0 then []
    else if s[0].rating == threshold then [s[0]] + FilterByRating(s[1..], threshold)
    else FilterByRating(s[1..], threshold)
  }

  /** The list with its first record named `name` unlinked. */
  function DeleteFirst(s: seq<Record>, name: string): (r: seq<Record>)
    ensures |r| <= |s| <= |r| + 1
  {
    if |s| == 0 then []
    else if s[0].name == name then s[1..]
    else [s[0]] + DeleteFirst(s[1..], name)
  }

  /** The list with the fields of its first record named `oldName` overwritten by `updated`. */
  function EditFirst(s: seq<Record>, oldName: string, updated: Record): (r: seq<Record>)
    ensures |r| == |s|
  {
    if |s| == 0 then []
    else if s[0].name == oldName then [updated] + s[1..]
    else [s[0]] + EditFirst(s[1..], oldName, updated)
  }

  /** The filter keeps exactly the records carrying the threshold, and never
      more records than the list holds. */
  lemma {:induction false} FilterByRatingSelects(s: seq<Record>, threshold: Rating)
    ensures |FilterByRating(s, threshold)| <= |s|
    ensures forall x :: x in FilterByRating(s, threshold) <==> x in s && x.rating == threshold
  {
    if |s| > 0 {
      FilterByRatingSelects(s[1..], threshold);
      assert s == [s[0]] + s[1..];
    }
  }

  /** Deleting by name removes the first match and only it; a miss changes nothing. */
  lemma {:induction false} DeleteFirstRemovesFirstMatch(s: seq<Record>, name: string)
    ensures FindFirst(s, name).None? ==> DeleteFirst(s, name) == s
    ensures FindFirst(s, name).Some? ==>
      DeleteFirst(s, name) == s[..FindFirst(s, name).value] + s[FindFirst(s, name).value + 1..]
  {
    if |s| > 0 && s[0].name != name {
      DeleteFirstRemovesFirstMatch(s[1..], name);
      if FindFirst(s, name).Some? {
        var i := FindFirst(s, name).value;
        assert s[1..][..i - 1] == s[1..i];
        assert s[1..][i..] == s[i + 1..];
        assert s[..i] == [s[0]] + s[1..i];
      }
    }
  }

  /** Editing by name overwrites the first match in place; the length and every
      other record stay, and a miss changes nothing. */
  lemma {:induction false} EditFirstOverwritesFirstMatch(s: seq<Record>, oldName: string, updated: Record)
    ensures |EditFirst(s, oldName, updated)| == |s|
    ensures FindFirst(s, oldName).None? ==> EditFirst(s, oldName, updated) == s
    ensures FindFirst(s, oldName).Some? ==>
      EditFirst(s, oldName, updated) == s[FindFirst(s, oldName).value := updated]
  {
    if |s| > 0 && s[0].name != oldName {
      EditFirstOverwritesFirstMatch(s[1..], oldName, updated);
      assert s == [s[0]] + s[1..];
    }
  }

  /** Filtering a concatenation filters each part: together with
      FilterSingleton this pins FilterByRating down as the order-preserving
      selection of the matching records. */
  lemma {:induction false} FilterConcat(a: seq<Record>, b: seq<Record>, threshold: Rating)
    ensures FilterByRating(a + b, threshold) == FilterByRating(a, threshold) + FilterByRating(b, threshold)
  {
    if |a| == 0 {
      assert a + b == b;
    } else {
      assert (a + b)[1..] == a[1..] + b;
      FilterConcat(a[1..], b, threshold);
    }
  }

  lemma FilterSingleton(x: Record, threshold: Rating)
    ensures FilterByRating([x], threshold) == if x.rating == threshold then [x] else []
  {
    assert [x][1..] == [];
  }

  /** "None found" is reported exactly when no record carries the threshold. */
  lemma {:induction false} FilterEmptyIff(s: seq<Record>, threshold: Rating)
    ensures FilterByRating(s, threshold) == [] <==> forall i :: 0 <= i < |s| ==> s[i].rating != threshold
  {
    if |s| > 0 && s[0].rating != threshold {
      FilterEmptyIff(s[1..], threshold);
      assert forall i :: 1 <= i < |s| ==> s[i] == s[1..][i - 1];
    }
  }

  /** Deleting the first record named `name` lets the next record of that
      name become the first match, one position earlier than it was; when
      there is no later one, the name is no longer found. */
  lemma DeleteRevealsNextDuplicate(s: seq<Record>, name: string)
    requires FindFirst(s, name).Some?
    ensures FindFirst(DeleteFirst(s, name), name).None? <==> FindFirst(s[FindFirst(s, name).value + 1..], name).None?
    ensures FindFirst(s[FindFirst(s, name).value + 1..], name).Some? ==>
      FindFirst(DeleteFirst(s, name), name)
        == Some(FindFirst(s, name).value + FindFirst(s[FindFirst(s, name).value + 1..], name).value)
  {
    var i := FindFirst(s, name).value;
    FindFirstSpec(s, name);
    FindFirstSpec(s[..i], name);
    DeleteFirstRemovesFirstMatch(s, name);
    FindFirstConcat(s[..i], s[i + 1..], name);
  }

  /** A prefix without the name shifts the first match of what follows it. */
  lemma {:induction false} FindFirstConcat(a: seq<Record>, b: seq<Record>, name: string)
    requires FindFirst(a, name).None?
    ensures FindFirst(a + b, name).None? <==> FindFirst(b, name).None?
    ensures FindFirst(b, name).Some? ==> FindFirst(a + b, name) == Some(|a| + FindFirst(b, name).value)
  {
    if |a| > 0 {
      assert (a + b)[1..] == a[1..] + b;
      assert a[0].name != name;
      FindFirstConcat(a[1..], b, name);
    } else {
      assert a + b == b;
    }
  }

  /** A position where the name occurs, with no occurrence before it, is the first match. */
  lemma {:induction false} FindFirstAt(s: seq<Record>, name: string, k: nat)
    requires k < |s| && s[k].name == name
    requires forall j :: 0 <= j < k ==> s[j].name != name
    ensures FindFirst(s, name) == Some(k)
  {
    if k > 0 {
      assert forall j :: 0 <= j < k - 1 ==> s[1..][j] == s[j + 1];
      FindFirstAt(s[1..], name, k - 1);
    }
  }
}
