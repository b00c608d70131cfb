/**
 * `get_coordinate_data`: the collected rows, header first, turned into
 * points.  A data row needs three cells, the first and third reading as
 * integers; any other row is skipped without a word.
 */
module Decoder {
  import opened Wrappers
  import opened Text
  import opened FilterMaps

  /** A decoded `(x, y, char)` triple; `glyph` is the whole middle cell. */
  datatype Point = Point(x: int, y: int, glyph: string)

  /** The middle cell, or a single space when that cell is empty. */
  function Glyph(cell: string): (g: string)
    ensures g != ""
    ensures cell != "" ==> g == cell
    ensures cell == "" ==> g == " "
  {
    if cell == "" then " " else cell
  }

  /** One data row, or `None` where `get_coordinate_data`'s `try` hits a `ValueError` or the row is too short. */
  function DecodeRow(row: seq<string>): (r: Option<Point>)
    ensures r.Some? <==> |row| >= 3 && ParseInt(row[0]).Some? && ParseInt(row[2]).Some?
    ensures r.Some? ==> r.value.glyph != ""
  {
    if |row| < 3 then None
    else match (ParseInt(row[0]), ParseInt(row[2]))
      case (Some(x), Some(y)) => Some(Point(x, y, Glyph(row[1])))
      case _ => None
  }

  /** The points of the given data rows, in row order, bad rows left out. */
  function DecodeAll(rows: seq<seq<string>>): (ps: seq<Point>)
    ensures |ps| <= |rows|
    ensures forall k :: 0 <= k < |ps| ==> ps[k].glyph != ""
  {
    var ps := FilterMap(DecodeRow, rows);
    FilterMapIsInOrderImage(DecodeRow, rows);
    ps
  }

  /** `get_coordinate_data`: nothing unless there is a header and at least one more row; the header is skipped. */
  function Decode(rows: seq<seq<string>>): (ps: seq<Point>)
    ensures |rows| < 2 ==> ps == []
    ensures |rows| >= 2 ==> |ps| <= |rows| - 1
    ensures forall k :: 0 <= k < |ps| ==> ps[k].glyph != ""
  {
    if |rows| < 2 then [] else DecodeAll(rows[1..])
  }

  // ---------------------------------------------------------------- which rows survive

  /**
   * Decoding is the in-order image of exactly the data rows that decode:
   * `ks` lists, strictly increasing, the positions after the header whose
   * rows decode, and the `k`-th point is the decoding of the `k`-th of them.
   */
  lemma DecodeIsInOrderImage(rows: seq<seq<string>>)
    requires |rows| >= 2
    ensures var ks := Accepted(DecodeRow, rows[1..]);
      && |Decode(rows)| == |ks|
      && (forall k, l :: 0 <= k < l < |ks| ==> ks[k] < ks[l])
      && (forall i :: 1 <= i < |rows| ==> (DecodeRow(rows[i]).Some? <==> i - 1 in ks))
      && (forall k :: 0 <= k < |ks| ==> ks[k] + 1 < |rows| && DecodeRow(rows[ks[k] + 1]) == Some(Decode(rows)[k]))
  {
    var data := rows[1..];
    AcceptedIsExact(DecodeRow, data);
    FilterMapIsInOrderImage(DecodeRow, data);
    assert forall i :: 1 <= i < |rows| ==> rows[i] == data[i - 1];
  }

  /** The header row is never looked at. */
  lemma HeaderIsIgnored(header: seq<string>, other: seq<string>, data: seq<seq<string>>)
    ensures Decode([header] + data) == Decode([other] + data)
  {
    assert ([header] + data)[1..] == data == ([other] + data)[1..];
  }

  /** Once there is a header, a row that does not decode changes nothing and one that does adds its point at the end. */
  lemma DecodeAppend(rows: seq<seq<string>>, row: seq<string>)
    requires |rows| >= 1
    ensures Decode(rows + [row]) == Decode(rows) + (match DecodeRow(row) case Some(p) => [p] case None => [])
  {
    var data := (rows + [row])[1..];
    assert data[..|data| - 1] == rows[1..];
    if |rows| == 1 {
      assert FilterMap(DecodeRow, rows[1..]) == [];
    }
  }

  /** The text of a point's coordinates around its glyph decodes back to the point. */
  lemma DecodeRowRoundTrip(p: Point)
    requires p.glyph != ""
    ensures DecodeRow([IntToString(p.x), p.glyph, IntToString(p.y)]) == Some(p)
  {
    var a, b := IntToString(p.x), IntToString(p.y);
    assert ParseInt(a) == Some(p.x) by { ParseIntOfIntToString(p.x); }
    assert ParseInt(b) == Some(p.y) by { ParseIntOfIntToString(p.y); }
    DecodeRowOfParsed([a, p.glyph, b], p.x, p.y);
  }

  /** A row whose first and third cells parse decodes to the point they give. */
  lemma DecodeRowOfParsed(row: seq<string>, x: int, y: int)
    requires |row| >= 3 && ParseInt(row[0]) == Some(x) && ParseInt(row[2]) == Some(y)
    ensures DecodeRow(row) == Some(Point(x, y, Glyph(row[1])))
  {
  }

  /** An empty middle cell decodes to a single space. */
  lemma EmptyGlyphIsSpace(x: int, y: int)
    ensures DecodeRow([IntToString(x), "", IntToString(y)]) == Some(Point(x, y, " "))
  {
    var a, b := IntToString(x), IntToString(y);
    assert ParseInt(a) == Some(x) by { ParseIntOfIntToString(x); }
    assert ParseInt(b) == Some(y) by { ParseIntOfIntToString(y); }
    DecodeRowOfParsed([a, "", b], x, y);
  }
}
