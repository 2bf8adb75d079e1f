/** The printer, the parser and the minifier one after the other. */
module JsonRoundTrip {
  import opened Octets
  import opened ByteText
  import opened JsonGrammar
  import opened JsonShape
  import opened JsonParse
  import opened JsonParser
  import opened JsonPrint
  import opened JsonPrinter
  import opened JsonMinify
  import opened JsonMinifier
  import opened JsonPieces

  /** Printing a tree and parsing the text: the same tree. */
  method PrintAndParse(item: Json, format: bool, memory: Bytes, fill: byte) returns (r: Option<Json>)
    requires Printable(item) && |memory| == 256
    ensures Depth(item) <= 1000 && |Printed(item, format, 0)| + 2 <= 0x7FFF_FFFF ==> r == Some(item)
  {
    var text := Print(item, format, memory, fill);
    if text.None? {
      return None;
    }
    PrintParse(item, format);
    r := Parse(text.value, true);
  }

  /** Minifying an accepted text in place and parsing what is left: the same tree. */
  method MinifyAndParse(json: array<byte>) returns (before: Option<Json>, past: bool, after: Option<Json>)
    requires CText(json[..])
    modifies json
    ensures before == ParseDoc(old(json[..]))
    ensures before.Some? ==> !past && after == before
  {
    var text := json[..json.Length - 1];
    assert text + [0] == json[..];
    before := Parse(text, true);
    past := Minify(json);
    after := None;
    if before.Some? {
      MinifyPreserves(text, before.value);
    }
    if !past {
      after := Parse(CString(json[..]), true);
    }
  }

  /** Minifying any text in place: it runs past the terminator exactly if behind finished
      pieces something is unfinished. */
  method MinifyAny(json: array<byte>) returns (past: bool)
    requires CText(json[..])
    modifies json
    ensures var s := old(json[..json.Length - 1]);
      past <==> exists ps, tail :: GoodPieces(ps, tail) && s == PiecesText(ps, tail) && Unfinished(tail)
    ensures var s := old(json[..json.Length - 1]);
      forall ps :: GoodPieces(ps, []) && s == PiecesText(ps, []) ==> !past && CString(json[..]) == KeptText(ps)
  {
    MinifiedExact(json[..json.Length - 1]);
    past := Minify(json);
  }
}
