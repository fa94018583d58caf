/**
 * The in-memory catalog: a hand-wired doubly linked list of movie nodes.
 * The ghost sequence Nodes lists the nodes from head to tail and Contents
 * the records they hold; Valid() ties head, tail and every next/prev
 * pointer to Nodes, and every operation is specified by its effect on
 * Contents.
 */
module MovieLists {
  import opened Wrappers
  import opened Catalog
  import opened LineCodec
  import opened Persistence

  /** One node of the list. */
  class Movie {
    var name: string
    var genre: string
    var rating: Rating
    var next: Movie?
    var prev: Movie?

    constructor (name: string, genre: string, rating: Rating)
      ensures this.name == name && this.genre == genre && this.rating == rating
      ensures next == null && prev == null
    {
      this.name := name;
      this.genre := genre;
      this.rating := rating;
      next := null;
      prev := null;
    }

    /** The record this node holds. */
    function Rec(): Record
      reads this
    {
      Record(name, genre, rating)
    }
  }

  /** The answer of a search by rating: the empty list is reported on its own. */
  datatype RatingSearch = NoMovies | Matches(found: seq<Record>)

  class MovieList {
    var head: Movie?
    var tail: Movie?

    ghost var Nodes: seq<Movie>
    ghost var Contents: seq<Record>
    ghost var Repr: set<object>

    ghost predicate Valid()
      reads this, Repr
    {
      && this in Repr
      && (forall i :: 0 <= i < |Nodes| ==> Nodes[i] in Repr)
      && (if |Nodes| == 0 then head == null && tail == null
          else head == Nodes[0] && tail == Nodes[|Nodes| - 1])
      && (|Nodes| > 0 ==> Nodes[0].prev == null && Nodes[|Nodes| - 1].next == null)
      && (forall i {:trigger Nodes[i].next} :: 0 <= i < |Nodes| - 1 ==> Nodes[i].next == Nodes[i + 1])
      && (forall i {:trigger Nodes[i].prev} :: 0 < i < |Nodes| ==> Nodes[i].prev == Nodes[i - 1])
      && |Contents| == |Nodes|
      && (forall i {:trigger Contents[i]} :: 0 <= i < |Nodes| ==> Contents[i] == Record(Nodes[i].name, Nodes[i].genre, Nodes[i].rating))
    }

    /** No node occurs twice: following next from a repeated node would never
        reach the tail's null. */
    lemma Distinct()
      requires Valid()
      ensures forall i, j :: 0 <= i < j < |Nodes| ==> Nodes[i] != Nodes[j]
    {
      forall i, j | 0 <= i < j < |Nodes| ensures Nodes[i] != Nodes[j] {
        DistinctAt(i, j);
      }
    }

    /** No other position holds the node at position i. */
    lemma Unique(i: nat)
      requires Valid() && i < |Nodes|
      ensures forall k :: 0 <= k < |Nodes| && k != i ==> Nodes[k] != Nodes[i]
    {
      forall k | 0 <= k < |Nodes| && k != i ensures Nodes[k] != Nodes[i] {
        if k < i { DistinctAt(k, i); } else { DistinctAt(i, k); }
      }
    }

    lemma DistinctAt(i: nat, j: nat)
      requires Valid() && i < j < |Nodes|
      ensures Nodes[i] != Nodes[j]
      decreases |Nodes| - j
    {
      if j + 1 < |Nodes| {
        DistinctAt(i + 1, j + 1);
        assert Nodes[i].next == Nodes[i + 1] && Nodes[j].next == Nodes[j + 1];
      } else {
        assert Nodes[i].next == Nodes[i + 1];
      }
    }

    /** The doubly linked shape that every operation keeps. */
    lemma WellLinked()
      requires Valid()
      ensures head == null <==> tail == null
      ensures head != null ==> head.prev == null
      ensures tail != null ==> tail.next == null
      ensures forall n :: n in Nodes && n.next != null ==> n.next.prev == n
      ensures forall n :: n in Nodes && n.prev != null ==> n.prev.next == n
    {
      forall n | n in Nodes && n.next != null ensures n.next.prev == n {
        var i :| 0 <= i < |Nodes| && Nodes[i] == n;
        assert Nodes[i + 1].prev == Nodes[i];
      }
      forall n | n in Nodes && n.prev != null ensures n.prev.next == n {
        var i :| 0 <= i < |Nodes| && Nodes[i] == n;
        assert Nodes[i - 1].next == Nodes[i];
      }
    }

    constructor ()
      ensures Valid() && fresh(Repr)
      ensures Contents == [] && head == null && tail == null
    {
      head, tail := null, null;
      Nodes, Contents := [], [];
      Repr := {this};
    }

    method AddMovie(name: string, genre: string, rating: Rating)
      requires Valid()
      modifies Repr
      ensures Valid() && fresh(Repr - old(Repr))
      ensures Contents == old(Contents) + [Record(name, genre, rating)]
      ensures fresh(tail) && Nodes == old(Nodes) + [tail]
      ensures old(head) == null ==> head == tail
      ensures old(head) != null ==> head == old(head)
    {
      var m := new Movie(name, genre, rating);
      if head == null {
        head, tail := m, m;
      } else {
        tail.next := m;
        m.prev := tail;
        tail := m;
      }
      Nodes := Nodes + [m];
      Contents := Contents + [m.Rec()];
      Repr := Repr + {m};
    }

    method SearchMovie(name: string) returns (found: Option<Record>)
      requires Valid()
      ensures FindFirst(Contents, name).None? ==> found == None
      ensures FindFirst(Contents, name).Some? ==> found == Some(Contents[FindFirst(Contents, name).value])
    {
      var temp := head;
      ghost var i := 0;
      while temp != null
        invariant 0 <= i <= |Nodes|
        invariant temp == if i < |Nodes| then Nodes[i] else null
        invariant forall j :: 0 <= j < i ==> Contents[j].name != name
        decreases |Nodes| - i
      {
        if temp.name == name {
          FindFirstAt(Contents, name, i);
          return Some(Record(temp.name, temp.genre, temp.rating));
        }
        temp := temp.next;
        i := i + 1;
      }
      FindFirstSpec(Contents, name);
      return None;
    }

    method SearchMoviesByRating(threshold: Rating) returns (result: RatingSearch)
      requires Valid()
      ensures result.NoMovies? <==> Contents == []
      ensures result.Matches? ==> result.found == FilterByRating(Contents, threshold)
    {
      if head == null {
        return NoMovies;
      }
      var temp := head;
      var matches: seq<Record> := [];
      ghost var i := 0;
      while temp != null
        invariant 0 <= i <= |Nodes|
        invariant temp == if i < |Nodes| then Nodes[i] else null
        invariant matches == FilterByRating(Contents[..i], threshold)
        decreases |Nodes| - i
      {
        assert Contents[..i + 1] == Contents[..i] + [Contents[i]];
        FilterConcat(Contents[..i], [Contents[i]], threshold);
        FilterSingleton(Contents[i], threshold);
        if temp.rating == threshold {
          matches := matches + [Record(temp.name, temp.genre, temp.rating)];
        }
        temp := temp.next;
        i := i + 1;
      }
      assert Contents[..i] == Contents;
      return Matches(matches);
    }

    method DeleteMovie(name: string) returns (deleted: bool)
      requires Valid()
      modifies Repr
      ensures Valid()
      ensures deleted <==> FindFirst(old(Contents), name).Some?
      ensures Contents == DeleteFirst(old(Contents), name)
      ensures !deleted ==> Nodes == old(Nodes) && Repr == old(Repr)
      ensures deleted ==>
        var i := FindFirst(old(Contents), name).value;
        Nodes == old(Nodes[..i] + Nodes[i + 1..]) && Repr == old(Repr) - {old(Nodes)[i]}
    {
      var temp := head;
      ghost var i := 0;
      while temp != null && temp.name != name
        invariant 0 <= i <= |Nodes|
        invariant temp == if i < |Nodes| then Nodes[i] else null
        invariant forall j :: 0 <= j < i ==> Contents[j].name != name
        decreases |Nodes| - i
      {
        temp := temp.next;
        i := i + 1;
      }
      if temp == null {
        FindFirstSpec(Contents, name);
        DeleteFirstRemovesFirstMatch(Contents, name);
        return false;
      }
      FindFirstAt(Contents, name, i);
      DeleteFirstRemovesFirstMatch(Contents, name);
      Unlink(temp, i);
      return true;
    }

    /** Unlinks the node at position i: its neighbours are pointed at each
        other, and head or tail move when it was at an end. */
    method Unlink(temp: Movie, ghost i: nat)
      requires Valid() && i < |Nodes| && temp == Nodes[i]
      modifies this, Repr
      ensures Valid() && Repr == old(Repr) - {temp}
      ensures Nodes == old(Nodes[..i] + Nodes[i + 1..])
      ensures Contents == old(Contents[..i] + Contents[i + 1..])
    {
      Unique(i);
      Splice(temp, i);
      Forget(i);
    }

    /** Drops position i from the ghost view of a list in which it has been
        bypassed. */
    method Forget(ghost i: nat)
      requires Bypassed(Nodes, Contents, i)
      requires this in Repr && forall k :: 0 <= k < |Nodes| ==> Nodes[k] in Repr
      requires forall k :: 0 <= k < |Nodes| && k != i ==> Nodes[k] != Nodes[i]
      requires head == if i == 0 then (if |Nodes| > 1 then Nodes[1] else null) else Nodes[0]
      requires tail == if i + 1 == |Nodes| then (if i > 0 then Nodes[i - 1] else null) else Nodes[|Nodes| - 1]
      modifies this
      ensures Valid()
      ensures Nodes == old(Nodes[..i] + Nodes[i + 1..]) && Contents == old(Contents[..i] + Contents[i + 1..])
      ensures Repr == old(Repr) - {old(Nodes[i])}
    {
      ghost var nodes, contents := Nodes, Contents;
      Nodes := nodes[..i] + nodes[i + 1..];
      Contents := contents[..i] + contents[i + 1..];
      Repr := Repr - {nodes[i]};
      BypassedValid(nodes, contents, i);
    }

    /** The pointer surgery of a delete: the neighbours of position i are
        pointed at each other and the ends of the list move past it; every
        other link and every record field stays as it was. */
    method Splice(temp: Movie, ghost i: nat)
      requires Valid() && i < |Nodes| && temp == Nodes[i]
      modifies Repr
      ensures Nodes == old(Nodes) && Contents == old(Contents) && Repr == old(Repr)
      ensures Bypassed(Nodes, Contents, i)
      ensures head == if i == 0 then (if |Nodes| > 1 then Nodes[1] else null) else Nodes[0]
      ensures tail == if i + 1 == |Nodes| then (if i > 0 then Nodes[i - 1] else null) else Nodes[|Nodes| - 1]
    {
      Neighbours(i);
      if temp.prev != null { temp.prev.next := temp.next; }
      if temp.next != null { temp.next.prev := temp.prev; }
      if temp == head { head := temp.next; }
      if temp == tail { tail := temp.prev; }
    }

    /** The neighbours of position i are the nodes at positions i - 1 and
        i + 1, or null at an end, and each occurs at no other position. */
    lemma Neighbours(i: nat)
      requires Valid() && i < |Nodes|
      ensures Nodes[i].prev == if i > 0 then Nodes[i - 1] else null
      ensures Nodes[i].next == if i + 1 < |Nodes| then Nodes[i + 1] else null
      ensures forall k :: 0 <= k < |Nodes| && k + 1 != i ==> Nodes[k] != Nodes[i].prev
      ensures forall k :: 0 <= k < |Nodes| && k != i + 1 ==> Nodes[k] != Nodes[i].next
    {
      if i > 0 { Unique(i - 1); }
      if i + 1 < |Nodes| { Unique(i + 1); }
    }

    /** The links and fields of `nodes` once position i has been bypassed:
        every surviving node keeps its old neighbours, except that the two
        neighbours of position i now point at each other. */
    ghost predicate Bypassed(nodes: seq<Movie>, contents: seq<Record>, i: nat)
      reads nodes
    {
      && i < |nodes| == |contents|
      && (forall k :: 0 <= k < |nodes| - 1 && k + 1 != i && k != i ==> nodes[k].next == nodes[k + 1])
      && (forall k :: 0 < k < |nodes| && k != i && k != i + 1 ==> nodes[k].prev == nodes[k - 1])
      && (i > 0 ==> nodes[i - 1].next == if i + 1 < |nodes| then nodes[i + 1] else null)
      && (i + 1 < |nodes| ==> nodes[i + 1].prev == if i > 0 then nodes[i - 1] else null)
      && (i != 0 ==> nodes[0].prev == null)
      && (i + 1 != |nodes| ==> nodes[|nodes| - 1].next == null)
      && (forall k :: 0 <= k < |nodes| && k != i ==>
            contents[k] == Record(nodes[k].name, nodes[k].genre, nodes[k].rating))
    }

    /** The list over `nodes` without position i is valid once position i
        has been bypassed. */
    lemma BypassedValid(nodes: seq<Movie>, contents: seq<Record>, i: nat)
      requires Bypassed(nodes, contents, i)
      requires Nodes == nodes[..i] + nodes[i + 1..] && Contents == contents[..i] + contents[i + 1..]
      requires this in Repr && forall k :: 0 <= k < |nodes| && k != i ==> nodes[k] in Repr
      requires head == if i == 0 then (if |nodes| > 1 then nodes[1] else null) else nodes[0]
      requires tail == if i + 1 == |nodes| then (if i > 0 then nodes[i - 1] else null) else nodes[|nodes| - 1]
      ensures Valid()
    {
      var n := |nodes|;
      assert forall k :: 0 <= k < n - 1 ==> Nodes[k] == if k < i then nodes[k] else nodes[k + 1];
      assert forall k :: 0 <= k < n - 1 ==> Contents[k] == if k < i then contents[k] else contents[k + 1];
      forall k | 0 <= k < n - 2 ensures Nodes[k].next == Nodes[k + 1] {
        if k + 1 == i {
          assert Nodes[k] == nodes[i - 1] && Nodes[k + 1] == nodes[i + 1];
        }
      }
      forall k | 0 < k < n - 1 ensures Nodes[k].prev == Nodes[k - 1] {
        if k == i {
          assert Nodes[k] == nodes[i + 1] && Nodes[k - 1] == nodes[i - 1];
        }
      }
    }

    method EditMovie(oldName: string, newName: string, newGenre: string, newRating: Rating) returns (edited: bool)
      requires Valid()
      modifies Repr
      ensures Valid() && Repr == old(Repr) && Nodes == old(Nodes)
      ensures head == old(head) && tail == old(tail)
      ensures edited <==> FindFirst(old(Contents), oldName).Some?
      ensures Contents == EditFirst(old(Contents), oldName, Record(newName, newGenre, newRating))
    {
      var temp := head;
      ghost var i := 0;
      while temp != null
        invariant 0 <= i <= |Nodes|
        invariant temp == if i < |Nodes| then Nodes[i] else null
        invariant forall j :: 0 <= j < i ==> Contents[j].name != oldName
        decreases |Nodes| - i
      {
        if temp.name == oldName {
          FindFirstAt(Contents, oldName, i);
          EditFirstOverwritesFirstMatch(Contents, oldName, Record(newName, newGenre, newRating));
          Overwrite(temp, i, newName, newGenre, newRating);
          return true;
        }
        temp := temp.next;
        i := i + 1;
      }
      FindFirstSpec(Contents, oldName);
      EditFirstOverwritesFirstMatch(Contents, oldName, Record(newName, newGenre, newRating));
      return false;
    }

    /** Overwrites the three fields of the node at position i in place. */
    method Overwrite(temp: Movie, ghost i: nat, name: string, genre: string, rating: Rating)
      requires Valid() && i < |Nodes| && temp == Nodes[i]
      modifies this, temp
      ensures Valid() && Repr == old(Repr) && Nodes == old(Nodes)
      ensures head == old(head) && tail == old(tail)
      ensures Contents == old(Contents)[i := Record(name, genre, rating)]
    {
      Unique(i);
      temp.name := name;
      temp.genre := genre;
      temp.rating := rating;
      Contents := Contents[i := Record(name, genre, rating)];
    }

    method ClearMovies()
      requires Valid()
      modifies this
      ensures Valid() && Repr == {this}
      ensures Contents == [] && head == null && tail == null
    {
      ghost var nodes := Nodes;
      ghost var i := 0;
      while head != null
        invariant 0 <= i <= |nodes|
        invariant head == if i < |nodes| then nodes[i] else null
        invariant forall j :: 0 <= j < |nodes| - 1 ==> nodes[j].next == nodes[j + 1]
        invariant |nodes| > 0 ==> nodes[|nodes| - 1].next == null
        decreases |nodes| - i
      {
        head := head.next;
        i := i + 1;
      }
      tail := null;
      Nodes, Contents := [], [];
      Repr := {this};
    }

    /** The lines the save writes, one per record from head to tail; opening
        and writing the file is not modelled. */
    method SaveToFile(formatRating: Rating -> string) returns (lines: seq<string>)
      requires Valid()
      ensures lines == SaveLines(Contents, formatRating)
    {
      lines := [];
      var temp := head;
      ghost var i := 0;
      while temp != null
        invariant 0 <= i <= |Nodes|
        invariant temp == if i < |Nodes| then Nodes[i] else null
        invariant |lines| == i
        invariant forall j :: 0 <= j < i ==> lines[j] == FormatLine(ToFields(Contents[j], formatRating))
        decreases |Nodes| - i
      {
        lines := lines + [temp.name + "," + temp.genre + "," + formatRating(temp.rating)];
        temp := temp.next;
        i := i + 1;
      }
      SaveLinesAt(Contents, formatRating);
    }

    /** Appends a record for every accepted line, in file order; the rating
        text is read with `parseRating`. */
    method LoadFromFile(lines: seq<string>, parseRating: string -> Rating)
      requires Valid()
      modifies Repr
      ensures Valid() && fresh(Repr - old(Repr))
      ensures Contents == old(Contents) + LoadRecords(lines, parseRating)
    {
      var k := 0;
      while k < |lines|
        invariant 0 <= k <= |lines|
        invariant Valid() && fresh(Repr - old(Repr))
        invariant Contents == old(Contents) + LoadRecords(lines[..k], parseRating)
      {
        ghost var before := Contents;
        LoadLine(lines[k], parseRating);
        LoadStep(old(Contents), lines, k, before, Contents, parseRating);
        k := k + 1;
      }
      assert lines[..k] == lines;
    }

    /** The body of the load loop for one line: split it at its first and last
        delimiter and append the record when the two positions differ. */
    method LoadLine(line: string, parseRating: string -> Rating)
      requires Valid()
      modifies Repr
      ensures Valid() && fresh(Repr - old(Repr))
      ensures Contents == old(Contents) + LoadRecords([line], parseRating)
    {
      LoadOne(line, parseRating);
      var pos1 := FirstComma(line);
      var pos2 := LastComma(line);
      if pos1.Some? && pos2.Some? && pos1.value != pos2.value {
        var name := line[..pos1.value];
        var genre := line[pos1.value + 1..pos2.value];
        var ratingText := line[pos2.value + 1..];
        assert ParseLine(line) == Some(Fields(name, genre, ratingText));
        AddMovie(name, genre, parseRating(ratingText));
      } else {
        assert ParseLine(line) == None;
      }
    }
  }
}
