/**
 The list of loaded albums (`discoscargados`): appending, lookup by code,
 the acceptance rules of the code and duration prompts, and the manual add
 (`cargar`) that builds an album from accepted values.
 */
module Catalogs {
  import opened Wrappers
  import opened Albums

  /** The loaded albums, in the order they were added or last sorted. */
  type Catalog = seq<Album>

  /** No two loaded albums share a code. */
  predicate DistinctCodes(c: Catalog)
  {
    forall i, j :: 0 <= i < j < |c| ==> c[i].code != c[j].code
  }

  /** `discoscargados.some(album => album.codigo === code)`. */
  predicate HasCode(c: Catalog, code: int)
  {
    exists i :: 0 <= i < |c| && c[i].code == code
  }

  /** `i` is the first position whose album has the code. */
  predicate IsFirstMatch(c: Catalog, code: int, i: int)
  {
    && 0 <= i < |c|
    && c[i].code == code
    && forall j :: 0 <= j < i ==> c[j].code != code
  }

  /** The scan of `find` from position `i` on, every earlier album known not to match. */
  function FindFrom(c: Catalog, code: int, i: nat): (r: Option<nat>)
    requires i <= |c|
    requires forall j :: 0 <= j < i ==> c[j].code != code
    ensures r.Some? ==> IsFirstMatch(c, code, r.value)
    ensures r.None? ==> forall j :: 0 <= j < |c| ==> c[j].code != code
    decreases |c| - i
  {
    if i == |c| then None
    else if c[i].code == code then Some(i)
    else FindFrom(c, code, i + 1)
  }

  /** There is only one first match. */
  lemma FirstMatchUnique(c: Catalog, code: int, i: int, i': int)
    requires IsFirstMatch(c, code, i) && IsFirstMatch(c, code, i')
    ensures i == i'
  {
    assert !(i < i') && !(i' < i);
  }

  /**
   `discoscargados.find(album => album.codigo === code)`: the first album with
   the code, or `None` when no album has it.
   */
  function FindByCode(c: Catalog, code: int): (r: Option<Album>)
    ensures r.None? <==> !HasCode(c, code)
    ensures r.Some? ==> exists i :: IsFirstMatch(c, code, i) && c[i] == r.value
  {
    match FindFrom(c, code, 0)
    case Some(i) => Some(c[i])
    case None => None
  }

  /** While codes are distinct, lookup returns the one album that has the code. */
  lemma FindUnderDistinctCodes(c: Catalog, i: int)
    requires DistinctCodes(c)
    requires 0 <= i < |c|
    ensures FindByCode(c, c[i].code) == Some(c[i])
  {
    var found := FindFrom(c, c[i].code, 0);
    assert found.Some?;
    var k := found.value;
    assert c[k].code == c[i].code;
    assert k == i;
  }

  /** Appending an album, as `discoscargados.push` does. */
  function Add(c: Catalog, a: Album): (r: Catalog)
    ensures |r| == |c| + 1 && r[..|c|] == c && r[|c|] == a
    ensures forall code :: code != a.code ==> FindByCode(r, code) == FindByCode(c, code)
    ensures !HasCode(c, a.code) ==> FindByCode(r, a.code) == Some(a)
  {
    var r := c + [a];
    assert r[..|c|] == c;
    assert forall code :: code != a.code ==> FindByCode(r, code) == FindByCode(c, code) by {
      forall code | code != a.code
        ensures FindByCode(r, code) == FindByCode(c, code)
      {
        FindAfterAppend(c, a, code);
      }
    }
    FindAfterAppend(c, a, a.code);
    r
  }

  /**
   The search of `buscar_id` on the parsed query (`None` is `NaN`): `NaN` is
   equal to no code, so it finds nothing.
   */
  function FindParsed(c: Catalog, parsed: Option<int>): (r: Option<Album>)
    ensures parsed.None? ==> r.None?
    ensures parsed.Some? ==> (r.None? <==> !HasCode(c, parsed.value))
    ensures r.Some? ==> parsed.Some? && exists i :: IsFirstMatch(c, parsed.value, i) && c[i] == r.value
  {
    if parsed.None? then None else FindByCode(c, parsed.value)
  }

  /** Lookup in a list with one album appended. */
  lemma FindAfterAppend(c: Catalog, a: Album, code: int)
    ensures FindByCode(c + [a], code) ==
      if HasCode(c, code) then FindByCode(c, code)
      else if a.code == code then Some(a) else None
  {
    var r := c + [a];
    var fr := FindFrom(r, code, 0);
    var fc := FindFrom(c, code, 0);
    if fc.Some? {
      var k := fc.value;
      assert IsFirstMatch(r, code, k) by {
        assert forall j :: 0 <= j <= k ==> r[j] == c[j];
      }
      assert fr.Some?;
      FirstMatchUnique(r, code, k, fr.value);
    } else if a.code == code {
      assert IsFirstMatch(r, code, |c|) by {
        assert forall j :: 0 <= j < |c| ==> r[j] == c[j];
      }
      assert fr.Some? by { assert r[|c|].code == code; }
      FirstMatchUnique(r, code, |c|, fr.value);
    } else {
      assert forall j :: 0 <= j < |r| ==> r[j].code != code by {
        assert forall j :: 0 <= j < |c| ==> r[j] == c[j];
      }
    }
  }

  /** What a prompt loop does with a value: keep it, or ask again with one of two messages. */
  datatype Verdict = Accepted | OutOfRange | AlreadyUsed

  /**
   The test of `pedirCodigo` on the parsed input (`None` is `NaN`): a code
   from 1 to 999 that no loaded album has yet.
   */
  function CheckCode(c: Catalog, parsed: Option<int>): (v: Verdict)
    ensures v == Accepted <==> parsed.Some? && 1 <= parsed.value <= 999 && FindByCode(c, parsed.value).None?
    ensures v == AlreadyUsed <==> parsed.Some? && 1 <= parsed.value <= 999 && FindByCode(c, parsed.value).Some?
  {
    if parsed.None? || parsed.value < 1 || parsed.value > 999 then OutOfRange
    else if HasCode(c, parsed.value) then AlreadyUsed
    else Accepted
  }

  /** The test of `pedirDuracion` on the parsed input: a duration from 0 to 7200 seconds. */
  function CheckDuration(parsed: Option<int>): (v: Verdict)
    ensures v != AlreadyUsed
    ensures v == Accepted <==> parsed.Some? && 0 <= parsed.value <= 7200
  {
    if parsed.None? || parsed.value < 0 || parsed.value > 7200 then OutOfRange
    else Accepted
  }

  /** Appending an album whose code the code prompt accepted keeps codes distinct. */
  lemma AddAcceptedKeepsDistinct(c: Catalog, a: Album)
    requires DistinctCodes(c)
    requires CheckCode(c, Some(a.code)) == Accepted
    ensures DistinctCodes(Add(c, a))
  {
    var r := Add(c, a);
    assert !HasCode(c, a.code);
    forall i, j | 0 <= i < j < |r|
      ensures r[i].code != r[j].code
    {
      if j == |c| {
        assert r[i] == c[i];
      } else {
        assert r[i] == c[i] && r[j] == c[j];
      }
    }
  }

  /**
   `cargar` from the point where every value has been accepted: an album with
   the given fields gets the tracks appended one by one (the `do … while`
   loop runs at least once) and is then appended to the list.
   */
  method Load(c: Catalog, name: string, artist: string, code: int, cover: string, tracks: seq<Track>)
    returns (r: Catalog, album: Album)
    requires CheckCode(c, Some(code)) == Accepted
    requires |tracks| >= 1
    requires forall i :: 0 <= i < |tracks| ==> CheckDuration(Some(tracks[i].duration)) == Accepted
    ensures album == Album(name, artist, code, cover, tracks)
    ensures r == c + [album]
    ensures DistinctCodes(c) ==> DistinctCodes(r)
    ensures FindByCode(r, code) == Some(album)
    ensures 0 <= TotalDuration(album) <= 7200 * |tracks|
  {
    album := Album(name, artist, code, cover, []);
    var i := 0;
    while i < |tracks|
      invariant 0 <= i <= |tracks|
      invariant album == Album(name, artist, code, cover, tracks[..i])
    {
      album := AddTrack(album, tracks[i]);
      i := i + 1;
    }
    assert tracks[..i] == tracks;
    SumBounds(tracks);
    r := Add(c, album);
    if DistinctCodes(c) {
      AddAcceptedKeepsDistinct(c, album);
    }
  }
}
