/** The `zones` table of usim_tables.py: one zone per distinct H3 cell of the
    skim origins, numbered 1..n in the order the cells are first seen. */
module ZoneBuilder {
  import opened SeqUtil

  /** An H3 cell address, e.g. "8848a23a3bfffff". */
  type H3Cell = string

  /** A polygon boundary as its vertex list (longitude, latitude). */
  type Ring = seq<(real, real)>

  /** One row of the zones table, indexed by `taz`. */
  datatype Zone = Zone(taz: int, h3Id: H3Cell, boundary: Ring, area: real)

  /** The boundary of every cell, in order; `None` as soon as one cell cannot
      be decoded (`h3_to_geo_boundary` raises). */
  function Boundaries(cells: seq<H3Cell>, decode: H3Cell -> Option<Ring>): (b: Option<seq<Ring>>)
    ensures b.None? <==> exists c :: c in cells && decode(c).None?
    ensures b.Some? ==> (|b.value| == |cells| &&
      forall i :: 0 <= i < |cells| ==> decode(cells[i]) == Some(b.value[i]))
  {
    if cells == [] then Some([])
    else
      var init := cells[..|cells| - 1];
      var last := cells[|cells| - 1];
      assert cells == init + [last];
      match Boundaries(init, decode)
      case None => None
      case Some(rings) =>
        match decode(last)
        case None => None
        case Some(ring) => Some(rings + [ring])
  }

  /** The table `zones` returns: row k holds the (k+1)-th distinct origin cell,
      its boundary and that boundary's area, under TAZ k + 1. */
  function ZoneTable(origTaz: seq<H3Cell>, decode: H3Cell -> Option<Ring>, areaOf: Ring -> real)
    : (r: Option<seq<Zone>>)
    ensures r.None? <==> exists c :: c in origTaz && decode(c).None?
    ensures r.Some? ==> |r.value| == |Unique(origTaz)|
    ensures r.Some? ==> forall k :: 0 <= k < |r.value| ==>
      r.value[k].taz == k + 1 && r.value[k].h3Id == Unique(origTaz)[k] &&
      decode(r.value[k].h3Id) == Some(r.value[k].boundary) &&
      r.value[k].area == areaOf(r.value[k].boundary)
  {
    var ids := Unique(origTaz);
    match Boundaries(ids, decode)
    case None => None
    case Some(rings) =>
      Some(seq(|ids|, k requires 0 <= k < |ids| => Zone(k + 1, ids[k], rings[k], areaOf(rings[k]))))
  }

  /** `zones(skims)`: the distinct origin cells, a boundary polygon for each
      appended in a loop, the polygon areas and the TAZ numbering. */
  method BuildZones(origTaz: seq<H3Cell>, decode: H3Cell -> Option<Ring>, areaOf: Ring -> real)
    returns (zones: Option<seq<Zone>>)
    ensures zones == ZoneTable(origTaz, decode, areaOf)
  {
    var zoneIds := Unique(origTaz);
    var shapes: seq<Ring> := [];
    for k := 0 to |zoneIds|
      invariant Boundaries(zoneIds[..k], decode) == Some(shapes)
    {
      var boundary := decode(zoneIds[k]);
      if boundary.None? {
        assert zoneIds[k] in origTaz;
        return None;
      }
      assert zoneIds[..k + 1][..k] == zoneIds[..k];
      shapes := shapes + [boundary.value];
    }
    assert zoneIds[..|zoneIds|] == zoneIds;
    var table := seq(|zoneIds|, k requires 0 <= k < |zoneIds| =>
      Zone(k + 1, zoneIds[k], shapes[k], areaOf(shapes[k])));
    return Some(table);
  }

  /** The TAZ column is exactly 1..n, n the number of distinct origin cells:
      every TAZ lies in 1..n and there are n different ones. */
  lemma ZoneIdsContiguous(origTaz: seq<H3Cell>, decode: H3Cell -> Option<Ring>, areaOf: Ring -> real)
    requires ZoneTable(origTaz, decode, areaOf).Some?
    ensures var zs := ZoneTable(origTaz, decode, areaOf).value;
      forall z :: z in zs ==> 1 <= z.taz <= |Unique(origTaz)|
    ensures var zs := ZoneTable(origTaz, decode, areaOf).value;
      |set z | z in zs :: z.taz| == |Unique(origTaz)|
  {
    TazNumbering(ZoneTable(origTaz, decode, areaOf).value);
  }

  function ZoneTaz(z: Zone): int
  {
    z.taz
  }

  /** Rows numbered 1..n carry n different numbers, all within 1..n. */
  lemma TazNumbering(zs: seq<Zone>)
    requires forall k :: 0 <= k < |zs| ==> zs[k].taz == k + 1
    ensures forall z :: z in zs ==> 1 <= z.taz <= |zs|
    ensures |set z | z in zs :: z.taz| == |zs|
  {
    var ids := Project(zs, ZoneTaz);
    forall i, j | 0 <= i < j < |ids| ensures ids[i] != ids[j] {
      assert ids[i] == i + 1 && ids[j] == j + 1;
    }
    DistinctCard(ids);
    assert (set z | z in zs :: z.taz) == (set t | t in ids) by {
      forall z | z in zs ensures z.taz in ids {
        var k :| 0 <= k < |zs| && zs[k] == z;
        assert ids[k] == z.taz;
      }
      forall t | t in ids ensures t in (set z | z in zs :: z.taz) {
        var k :| 0 <= k < |ids| && ids[k] == t;
        assert zs[k] in zs;
      }
    }
  }

  /** Every origin cell has exactly one zone, and no two zones share a cell;
      zone k's cell is first seen before zone k+1's. */
  lemma {:induction false} ZoneCells(origTaz: seq<H3Cell>, decode: H3Cell -> Option<Ring>, areaOf: Ring -> real)
    requires ZoneTable(origTaz, decode, areaOf).Some?
    ensures var zs := ZoneTable(origTaz, decode, areaOf).value;
      forall c :: c in origTaz <==> exists z :: z in zs && z.h3Id == c
    ensures var zs := ZoneTable(origTaz, decode, areaOf).value;
      forall i, j :: 0 <= i < j < |zs| ==>
        zs[i].h3Id != zs[j].h3Id &&
        FirstIndex(origTaz, zs[i].h3Id) < FirstIndex(origTaz, zs[j].h3Id)
  {
    var zs := ZoneTable(origTaz, decode, areaOf).value;
    var ids := Unique(origTaz);
    UniqueFirstSeenOrder(origTaz);
    forall c | c in origTaz ensures exists z :: z in zs && z.h3Id == c {
      var k :| 0 <= k < |ids| && ids[k] == c;
      assert zs[k] in zs;
    }
  }
}
