/** The decisions create_group and get_group_id make in Add_Mac_ISE.py, with
    the service's responses and the operator's answer as inputs, and the
    confirmation test the script applies to an answer. */
module GroupResolution {

  datatype Option<T> = None | Some(value: T)

  /** The text create_group splits the Location header on. */
  const Marker: string := "/endpointgroup/"

  /** The text create_group looks for in a refused creation's body. */
  const AlreadyExists: string := "already exists"

  /** `p` occurs in `t` starting at position `i`. */
  predicate OccursAt(t: string, p: string, i: int) {
    0 <= i && i + |p| <= |t| && t[i..i + |p|] == p
  }

  /** Python's `p in t` for strings: `t` is scanned from the left for a
      position where `p` starts. */
  predicate Contains(t: string, p: string): (b: bool)
    ensures b <==> exists i | 0 <= i <= |t| - |p| :: OccursAt(t, p, i)
    decreases |t|
  {
    if |t| < |p| then false
    else if t[..|p|] == p then assert OccursAt(t, p, 0); true
    else
      assert !OccursAt(t, p, 0);
      assert forall i | 1 <= i <= |t| - |p| :: OccursAt(t, p, i) ==> OccursAt(t[1..], p, i - 1);
      assert forall j | 0 <= j <= |t| - 1 - |p| :: OccursAt(t[1..], p, j) ==> OccursAt(t, p, j + 1);
      Contains(t[1..], p)
  }

  /** str.split(sep) after `piece` has already been read: the string is
      scanned left to right, and each occurrence of `sep` found ends the
      current piece; occurrences never overlap. */
  function SplitFrom(s: string, sep: string, piece: string): (pieces: seq<string>)
    requires sep != []
    ensures |pieces| >= 1
    decreases |s|
  {
    if |s| < |sep| then [piece + s]
    else if s[..|sep|] == sep then [piece] + SplitFrom(s[|sep|..], sep, [])
    else SplitFrom(s[1..], sep, piece + [s[0]])
  }

  function Split(s: string, sep: string): (pieces: seq<string>)
    requires sep != []
    ensures |pieces| >= 1
  {
    SplitFrom(s, sep, [])
  }

  /** sep.join(pieces), the inverse of Split. */
  function Join(pieces: seq<string>, sep: string): (s: string)
    requires |pieces| >= 1
    ensures |s| >= |pieces[|pieces| - 1]|
  {
    if |pieces| == 1 then pieces[0] else pieces[0] + sep + Join(pieces[1..], sep)
  }

  lemma {:induction false} JoinLast(pieces: seq<string>, sep: string)
    requires |pieces| >= 2
    ensures Join(pieces, sep) == Join(pieces[..|pieces| - 1], sep) + sep + pieces[|pieces| - 1]
  {
    if |pieces| > 2 {
      JoinLast(pieces[1..], sep);
      assert pieces[1..][..|pieces| - 2] == pieces[..|pieces| - 1][1..];
    }
  }

  /** Splitting loses nothing: joining the pieces gives the string back. */
  lemma {:induction false} SplitFromJoin(s: string, sep: string, piece: string)
    requires sep != []
    ensures Join(SplitFrom(s, sep, piece), sep) == piece + s
    decreases |s|
  {
    if |s| < |sep| {
    } else if s[..|sep|] == sep {
      SplitFromJoin(s[|sep|..], sep, []);
      assert s == sep + s[|sep|..];
    } else {
      SplitFromJoin(s[1..], sep, piece + [s[0]]);
      assert piece + [s[0]] + s[1..] == piece + s;
    }
  }

  /** `sep` occurs nowhere in `t`. */
  predicate Free(t: string, sep: string) {
    forall i :: 0 <= i <= |t| - |sep| ==> !OccursAt(t, sep, i)
  }

  /** No piece contains the separator, provided no occurrence starts inside
      the piece read so far. */
  lemma {:induction false} SplitFromPiecesFree(s: string, sep: string, piece: string)
    requires sep != []
    requires forall i :: 0 <= i < |piece| ==> !OccursAt(piece + s, sep, i)
    ensures forall j :: 0 <= j < |SplitFrom(s, sep, piece)| ==> Free(SplitFrom(s, sep, piece)[j], sep)
    decreases |s|
  {
    var pieces := SplitFrom(s, sep, piece);
    if |s| < |sep| {
      assert pieces == [piece + s];
    } else if s[..|sep|] == sep {
      SplitFromPiecesFree(s[|sep|..], sep, []);
      forall i | 0 <= i <= |piece| - |sep| ensures !OccursAt(piece, sep, i) {
        assert !OccursAt(piece + s, sep, i);
        assert (piece + s)[i..i + |sep|] == piece[i..i + |sep|];
      }
      assert pieces == [piece] + SplitFrom(s[|sep|..], sep, []);
    } else {
      var piece' := piece + [s[0]];
      assert piece' + s[1..] == piece + s;
      assert !OccursAt(piece + s, sep, |piece|) by {
        assert (piece + s)[|piece|..|piece| + |sep|] == s[..|sep|];
      }
      SplitFromPiecesFree(s[1..], sep, piece');
    }
  }

  /** A string without the separator splits into itself alone. */
  lemma {:induction false} SplitFromOfFree(s: string, sep: string, piece: string)
    requires sep != [] && Free(s, sep)
    ensures SplitFrom(s, sep, piece) == [piece + s]
    decreases |s|
  {
    if |s| >= |sep| {
      assert !OccursAt(s, sep, 0);
      forall i | 0 <= i <= |s[1..]| - |sep| ensures !OccursAt(s[1..], sep, i) {
        assert !OccursAt(s, sep, i + 1);
        assert s[1..][i..i + |sep|] == s[i + 1..i + 1 + |sep|];
      }
      SplitFromOfFree(s[1..], sep, piece + [s[0]]);
      assert piece + [s[0]] + s[1..] == piece + s;
    }
  }

  /** `location_header.split("/endpointgroup/")[-1]`: the group id create_group
      reads from the Location header of a 201 response. */
  function LocationId(location: string): (id: string) {
    var pieces := Split(location, Marker);
    pieces[|pieces| - 1]
  }

  /** The pieces of a split header: joined by the marker they give the header
      back, and none of them holds the marker. */
  lemma SplitHeader(location: string)
    ensures Join(Split(location, Marker), Marker) == location
    ensures forall j :: 0 <= j < |Split(location, Marker)| ==> Free(Split(location, Marker)[j], Marker)
  {
    SplitFromJoin(location, Marker, []);
    SplitFromPiecesFree(location, Marker, []);
    assert [] + location == location;
  }

  /** The id is a suffix of the header that holds no marker; it is the whole
      header when the header holds no marker, and otherwise the marker stands
      right before it. */
  lemma LocationIdSuffix(location: string)
    ensures |LocationId(location)| <= |location|
    ensures location[|location| - |LocationId(location)|..] == LocationId(location)
    ensures Free(LocationId(location), Marker)
    ensures Free(location, Marker) ==> LocationId(location) == location
    ensures !Free(location, Marker) ==>
              OccursAt(location, Marker, |location| - |LocationId(location)| - |Marker|)
  {
    var pieces := Split(location, Marker);
    var id := pieces[|pieces| - 1];
    assert id == LocationId(location);
    SplitHeader(location);
    assert |pieces| == 1 ==> Join(pieces, Marker) == pieces[0];
    assert Free(pieces[0], Marker) && Free(id, Marker);
    if Free(location, Marker) {
      SplitFromOfFree(location, Marker, []);
    } else {
      assert |pieces| >= 2;
      JoinLast(pieces, Marker);
      var front := Join(pieces[..|pieces| - 1], Marker);
      assert location == front + Marker + id;
      assert location[|front|..|front| + |Marker|] == Marker;
    }
  }

  /** Positions where no occurrence starts are simply read into the piece. */
  lemma {:induction false} SplitFromSkip(s: string, sep: string, piece: string, n: nat)
    requires sep != [] && n <= |s|
    requires forall i :: 0 <= i < n ==> !OccursAt(s, sep, i)
    ensures SplitFrom(s, sep, piece) == SplitFrom(s[n..], sep, piece + s[..n])
    decreases n
  {
    if n == 0 {
      assert s[0..] == s && piece + s[..0] == piece;
    } else if |s| >= |sep| {
      assert !OccursAt(s, sep, 0);
      forall i | 0 <= i < n - 1 ensures !OccursAt(s[1..], sep, i) {
        assert !OccursAt(s, sep, i + 1);
        if i + |sep| <= |s[1..]| {
          assert s[1..][i..i + |sep|] == s[i + 1..i + 1 + |sep|];
        }
      }
      SplitFromSkip(s[1..], sep, piece + [s[0]], n - 1);
      assert s[1..][n - 1..] == s[n..];
      assert piece + [s[0]] + s[1..][..n - 1] == piece + s[..n];
    } else {
      assert piece + s[..n] + s[n..] == piece + s;
    }
  }

  /** A header of the form prefix + "/endpointgroup/" + id, where id holds no
      '/' and no marker ends before the last one does, yields exactly id. */
  lemma LocationIdOfHeader(prefix: string, id: string)
    requires Free(prefix + Marker[..|Marker| - 1], Marker)
    requires forall i :: 0 <= i < |id| ==> id[i] != '/'
    ensures LocationId(prefix + Marker + id) == id
  {
    var location := prefix + Marker + id;
    var head := prefix + Marker[..|Marker| - 1];
    forall i | 0 <= i < |prefix| ensures !OccursAt(location, Marker, i) {
      if i + |Marker| <= |location| {
        assert location[i..i + |Marker|] == head[i..i + |Marker|];
        assert !OccursAt(head, Marker, i);
      }
    }
    SplitFromSkip(location, Marker, [], |prefix|);
    assert location[|prefix|..] == Marker + id;
    assert location[..|prefix|] == prefix;
    assert (Marker + id)[..|Marker|] == Marker;
    assert (Marker + id)[|Marker|..] == id;
    assert Free(id, Marker) by {
      forall i | 0 <= i <= |id| - |Marker| ensures !OccursAt(id, Marker, i) {
        assert id[i..i + |Marker|][0] == id[i];
      }
    }
    SplitFromOfFree(id, Marker, []);
    assert [] + prefix == prefix && [] + id == id;
    assert Split(location, Marker) == [prefix, id];
  }

  /** The marker can overlap itself by its closing '/'. The split takes the
      first of two overlapping occurrences and skips the second, so the id is
      not always the text after the last occurrence. */
  lemma LocationIdOverlap()
    ensures LocationId("/endpointgroup/endpointgroup/x") == "endpointgroup/x"
  {
    var location := "/endpointgroup/endpointgroup/x";
    var rest := "endpointgroup/x";
    assert location[..|Marker|] == Marker;
    assert location[|Marker|..] == rest;
    assert Free(rest, Marker) by {
      assert !OccursAt(rest, Marker, 0) by { assert rest[0] != Marker[0]; }
      assert !OccursAt(rest, Marker, 1) by { assert rest[1] != Marker[0]; }
    }
    SplitFromOfFree(rest, Marker, []);
    assert [] + rest == rest;
    assert Split(location, Marker) == [[], rest];
  }

  /** The parts of the lookup response get_group_id reads: the status code and
      SearchResult.resources as the list of resource ids (None when either key
      is missing from the body). */
  datatype LookupResponse = LookupResponse(status: int, resources: Option<seq<string>>)

  /** get_group_id: the first resource's id of a 200 response whose resource
      list is present and not empty; None in every other case. */
  function GetGroupId(lookup: LookupResponse): (id: Option<string>)
    ensures id.Some? <==> lookup.status == 200 && lookup.resources.Some? && lookup.resources.value != []
    ensures id.Some? ==> id.value == lookup.resources.value[0] && id.value in lookup.resources.value
  {
    if lookup.status == 200 && lookup.resources.Some? && lookup.resources.value != [] then
      Some(lookup.resources.value[0])
    else
      None
  }

  /** The answer the script accepts as yes: a single S, in either case. */
  predicate IsConfirmed(answer: string): (b: bool)
    ensures b <==> answer in ["S", "s"]
  {
    assert |answer| == 1 ==> answer == [answer[0]];
    |answer| == 1 && (answer[0] == 'S' || answer[0] == 's')
  }

  /** The parts of the creation response create_group reads. */
  datatype CreateResponse = CreateResponse(status: int, location: string, text: string)

  /** How create_group ends: it returns the new group's id, returns what the
      lookup of an existing group found, or stops the script because the
      operator declined to reuse the group or because the creation failed
      for another reason (the body is shown to the operator). */
  datatype Resolution =
    | Created(id: string)
    | Reused(found: Option<string>)
    | Declined
    | CreateFailed(text: string)

  /** create_group with the answer to its reuse prompt and the response of
      its lookup as inputs (each is used only on the path that asks for it). */
  function CreateGroup(response: CreateResponse, answer: string, lookup: LookupResponse): (r: Resolution)
    ensures response.status == 201 ==> r == Created(LocationId(response.location))
    ensures response.status != 201 && Contains(response.text, AlreadyExists) ==>
              r == if IsConfirmed(answer) then Reused(GetGroupId(lookup)) else Declined
    ensures response.status != 201 && !Contains(response.text, AlreadyExists) ==>
              r == CreateFailed(response.text)
  {
    if response.status == 201 then
      Created(LocationId(response.location))
    else if Contains(response.text, AlreadyExists) then
      if IsConfirmed(answer) then Reused(GetGroupId(lookup)) else Declined
    else
      CreateFailed(response.text)
  }

  /** The script goes on past create_group only after a 201, or after an
      "already exists" answered with S or s; only then is the lookup's
      response consulted, and a created group's id is a marker-free suffix of
      the Location header. */
  lemma CreateGroupOutcomes(response: CreateResponse, answer: string, lookup: LookupResponse, other: LookupResponse)
    ensures var r := CreateGroup(response, answer, lookup);
            (r.Created? || r.Reused?) <==>
              response.status == 201 || (Contains(response.text, AlreadyExists) && IsConfirmed(answer))
    ensures CreateGroup(response, answer, lookup) != CreateGroup(response, answer, other) ==>
              response.status != 201 && Contains(response.text, AlreadyExists) && IsConfirmed(answer)
    ensures var r := CreateGroup(response, answer, lookup);
            r.Created? ==> Free(r.id, Marker) && |r.id| <= |response.location| &&
                           response.location[|response.location| - |r.id|..] == r.id
  {
    LocationIdSuffix(response.location);
  }
}
