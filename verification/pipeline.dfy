/**
 * `fetch_and_render` after the download: parse the page, decode the
 * coordinates, render them, and decide which of the three messages the
 * program shows.
 */
module Pipeline {
  import opened Wrappers
  import opened TableParser
  import opened Decoder
  import opened Renderer

  /** What the program reports for a downloaded page. */
  datatype Outcome =
    | NoCoordinates       // "No valid coordinate data found."
    | Rendered(art: string)
    | RenderFailed        // "Failed to render ASCII art."

  /** The page, given as the parser's events, taken through to the report. */
  function FetchAndRender(page: seq<Event>): (o: Outcome)
    ensures o.NoCoordinates? <==> Decode(Parse(page)) == []
  {
    var coords := Decode(Parse(page));
    if coords == [] then NoCoordinates
    else
      match Render(coords)
      case Some(art) => if art != "" then Rendered(art) else RenderFailed
      case None => RenderFailed
  }

  /**
   * The failure branch cannot be taken: decoded points always render to a
   * non-empty string, which is exactly the art of those points.
   */
  lemma RenderNeverFails(page: seq<Event>)
    ensures !FetchAndRender(page).RenderFailed?
    ensures FetchAndRender(page).Rendered? ==>
              Some(FetchAndRender(page).art) == Render(Decode(Parse(page)))
  {
    var coords := Decode(Parse(page));
    if coords != [] {
      RenderIsNonEmpty(coords);
    }
  }

  /** A page without a table yields no coordinates. */
  lemma NoTableNoCoordinates(page: seq<Event>)
    requires NoTableStart(page)
    ensures FetchAndRender(page) == NoCoordinates
  {
    NoTableNoRows(page);
  }

  /**
   * A header row written with `<th>` cells is not collected, so the first
   * `<td>` row takes the header's place and is skipped: its point is never
   * drawn.
   */
  lemma HeaderCellsCostFirstDataRow(header: seq<string>, rows: seq<seq<string>>)
    requires |rows| >= 1
    requires forall i :: 0 <= i < |rows| ==> |rows[i]| > 0 && AllClean(rows[i])
    ensures Decode(Parse([Start("table"), Start("tr")] + HeaderCellEvents(header) + [End("tr")] + RowsEvents(rows)))
         == DecodeAll(rows[1..])
  {
    HeaderRowIsDropped(header, rows);
    CleanRowsNormalizeToThemselves(rows);
  }
}
