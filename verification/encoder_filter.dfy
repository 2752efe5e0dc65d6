/**
 The filter-graph part of the encoder command: the program name escaped for
 the drawtext filter, the drawtext filter chained after the overlay graph or
 applied to the main video, the output label the encoder maps, and the
 filter and input arguments that carry them.
 */
module EncoderFilter {
  import opened Optional
  import Config
  import Text
  import Overlay

  /** The escape of ':' : a backslash before it. */
  const EscapedColon: string := "\\:"
  /** The escape of a single quote: close the quote, an escaped backslash pair, reopen. */
  const EscapedQuote: string := "'\\\\''"

  /**
   The program name as the command receives it: colons escaped first, then
   single quotes. The result is the per-character escape, and reading it back
   gives the name.
   */
  function Escape(name: string): (e: string)
    ensures e == EscapeChars(name)
    ensures Unescape(e) == name
  {
    EscapeIsPerCharacter(name);
    UnescapeEscapeChars(name);
    Text.ReplaceChar(Text.ReplaceChar(name, ':', EscapedColon), '\'', EscapedQuote)
  }

  /** The escape of one character. */
  function EscapeChar(c: char): (e: string)
    ensures |e| > 0 && e[0] != ':'
    ensures c != ':' && c != '\'' ==> e == [c]
  {
    if c == ':' then EscapedColon else if c == '\'' then EscapedQuote else [c]
  }

  /** The escape defined one character at a time. */
  function EscapeChars(s: string): (r: string)
    ensures s != [] ==> r != [] && r[0] != ':'
    ensures forall i :: 0 <= i < |r| && r[i] == ':' ==> i > 0 && r[i - 1] == '\\'
  {
    if s == [] then []
    else
      var head := EscapeChar(s[0]);
      var tail := EscapeChars(s[1..]);
      assert forall i :: |head| <= i < |head + tail| ==> (head + tail)[i] == tail[i - |head|];
      head + tail
  }

  /** The two successive replacements escape each character on its own. */
  lemma {:induction false} EscapeIsPerCharacter(s: string)
    ensures Text.ReplaceChar(Text.ReplaceChar(s, ':', EscapedColon), '\'', EscapedQuote) == EscapeChars(s)
  {
    if s != [] {
      var first := if s[0] == ':' then EscapedColon else [s[0]];
      assert Text.ReplaceChar(s, ':', EscapedColon) == first + Text.ReplaceChar(s[1..], ':', EscapedColon);
      Text.ReplaceCharAppend(first, Text.ReplaceChar(s[1..], ':', EscapedColon), '\'', EscapedQuote);
      EscapeIsPerCharacter(s[1..]);
      if s[0] == ':' {
        assert Text.ReplaceChar(first, '\'', EscapedQuote) == EscapedColon;
      } else {
        assert first[1..] == [];
        assert Text.ReplaceChar(first, '\'', EscapedQuote) == EscapeChar(s[0]);
      }
    }
  }

  /** Reads an escaped name back: each escape sequence becomes the character it stands for. */
  function Unescape(s: string): string
    decreases |s|
  {
    if s == [] then []
    else if |s| >= 5 && s[..5] == EscapedQuote then "'" + Unescape(s[5..])
    else if |s| >= 2 && s[..2] == EscapedColon then ":" + Unescape(s[2..])
    else [s[0]] + Unescape(s[1..])
  }

  /** The per-character escape loses nothing: reading it back gives the input. */
  lemma {:induction false} UnescapeEscapeChars(s: string)
    ensures Unescape(EscapeChars(s)) == s
  {
    if s != [] {
      var head := EscapeChar(s[0]);
      var tail := EscapeChars(s[1..]);
      var e := head + tail;
      assert EscapeChars(s) == e;
      UnescapeEscapeChars(s[1..]);
      if s[0] == '\'' {
        assert e[..5] == EscapedQuote && e[5..] == tail;
      } else if s[0] == ':' {
        assert e[..2] == EscapedColon && e[2..] == tail;
      } else {
        assert e[1..] == tail;
        assert !(|e| >= 5 && e[..5] == EscapedQuote) by { assert e[0] == s[0]; }
        assert !(|e| >= 2 && e[..2] == EscapedColon) by {
          if |e| >= 2 && s[0] == '\\' {
            assert e[1] == tail[0];
          }
        }
      }
      assert [s[0]] + s[1..] == s;
    }
  }

  /** The opening of the drawtext filter, up to the quoted text. */
  const TextOpening: string := "drawtext=text='"

  /** Everything after the quoted text: the font, colours, position and box. */
  const TextOptions: string :=
    "':fontfile=" + Config.FONT_PATH
    + ":fontsize=" + Config.FONT_SIZE + ":fontcolor=" + Config.FONT_COLOR
    + ":x=" + Config.PROGRAM_NAME_X + ":y=" + Config.PROGRAM_NAME_Y
    + ":box=1:boxcolor=" + Config.BOX_COLOR + ":boxborderw=" + Config.BOX_BORDER_WIDTH

  /** The drawtext filter that writes `name` with the configured font, colours and position. */
  function DrawText(name: string): string {
    TextOpening + Escape(name) + TextOptions
  }

  /** The drawn text is recoverable from the filter: different names give different filters. */
  lemma DrawTextNamesProgram(a: string, b: string)
    requires DrawText(a) == DrawText(b)
    ensures a == b
  {
    var fa, fb := DrawText(a), DrawText(b);
    var n := |TextOpening|;
    assert |Escape(a)| == |Escape(b)|;
    assert fa[n..n + |Escape(a)|] == Escape(a);
    assert fb[n..n + |Escape(b)|] == Escape(b);
    assert Unescape(Escape(a)) == a && Unescape(Escape(b)) == b;
  }

  /** A filter text that Python treats as true: present and non-empty. */
  predicate Truthy(f: Option<string>) {
    f.Some? && f.value != ""
  }

  /** The filter graph and the label mapped as video output. */
  datatype Graph = Graph(filter: Option<string>, output: string)

  /**
   Adds the program name to the overlay graph. The name is drawn only when the
   feature is on, the name is non-empty and the font file exists: after an
   existing overlay graph, reading its `[out]` and writing `[out_final]`, which
   becomes the mapped label; with no overlay graph, straight onto the main
   video, writing `[out]`. Otherwise the overlay graph and `[out]` are kept.
   */
  function ProgramNameGraph(overlay: Option<string>, name: string, enabled: bool, fontExists: bool): (g: Graph)
    ensures (overlay.Some? ==> Text.EndsWith(overlay.value, "[out]")) && g.filter.Some? ==>
      Text.EndsWith(g.filter.value, g.output)
    ensures !(enabled && name != "" && fontExists) ==> g.filter == overlay && g.output == "[out]"
    ensures enabled && name != "" && fontExists ==>
      g.filter.Some? && Text.EndsWith(g.filter.value, DrawText(name) + g.output)
    ensures enabled && name != "" && fontExists && Truthy(overlay) ==>
      g.output == "[out_final]" && overlay.value + ";[out]" <= g.filter.value
    ensures enabled && name != "" && fontExists && !Truthy(overlay) ==>
      g.output == "[out]" && "[0:v]" <= g.filter.value
  {
    if enabled && name != "" && fontExists then
      if Truthy(overlay) then
        Text.ThreeParts(overlay.value + ";[out]", DrawText(name), "[out_final]");
        Graph(Some(overlay.value + ";[out]" + DrawText(name) + "[out_final]"), "[out_final]")
      else
        Text.ThreeParts("[0:v]", DrawText(name), "[out]");
        Graph(Some("[0:v]" + DrawText(name) + "[out]"), "[out]")
    else
      Graph(overlay, "[out]")
  }

  /** The graph the encoder command is built with, from the overlay state and the program name. */
  function EncoderGraph(sw: Overlay.Switches, disk: set<string>, name: string, enabled: bool, fontExists: bool): Graph {
    ProgramNameGraph(Overlay.OverlayFilter(sw, disk), name, enabled, fontExists)
  }

  /**
   The mapped label is always one the filter produces: whenever a filter is
   given, it ends in the label the command maps, and a drawn name appears
   escaped inside it.
   */
  lemma MappedLabelIsProduced(sw: Overlay.Switches, disk: set<string>, name: string, enabled: bool, fontExists: bool)
    ensures EncoderGraph(sw, disk, name, enabled, fontExists).filter.Some? ==>
      Text.EndsWith(EncoderGraph(sw, disk, name, enabled, fontExists).filter.value,
                    EncoderGraph(sw, disk, name, enabled, fontExists).output)
    ensures EncoderGraph(sw, disk, name, enabled, fontExists).filter.None? ==>
      EncoderGraph(sw, disk, name, enabled, fontExists).output == "[out]"
  {
    var g := EncoderGraph(sw, disk, name, enabled, fontExists);
    var ov := Overlay.OverlayFilter(sw, disk);
    if enabled && name != "" && fontExists {
      var pre := if Truthy(ov) then ov.value + ";[out]" + DrawText(name) else "[0:v]" + DrawText(name);
      assert g.filter.value == pre + g.output;
    }
  }

  /**
   The filter arguments: `-filter_complex` with the graph and `-map` of its
   label and of the main audio, only when the graph is a non-empty text.
   */
  function FilterArgs(g: Graph): (args: seq<string>)
    ensures Truthy(g.filter) <==> args != []
    ensures Truthy(g.filter) ==> args == ["-filter_complex", g.filter.value, "-map", g.output, "-map", "0:a"]
  {
    if Truthy(g.filter) then ["-filter_complex", g.filter.value, "-map", g.output, "-map", "0:a"] else []
  }

  /** One `-i` argument per overlay input, in the order given. */
  function InputArgs(inputs: seq<string>): (args: seq<string>)
    ensures |args| == 2 * |inputs|
    ensures forall i :: 0 <= i < |inputs| ==> args[2 * i] == "-i" && args[2 * i + 1] == inputs[i]
  {
    if inputs == [] then []
    else
      var rest := InputArgs(inputs[1..]);
      var args := ["-i", inputs[0]] + rest;
      assert forall i :: 1 <= i < |inputs| ==>
        args[2 * i] == rest[2 * (i - 1)] && args[2 * i + 1] == rest[2 * (i - 1) + 1];
      args
  }

  /** The text the drawn name appends to an overlay graph. */
  function DrawTextTail(name: string): string {
    ";[out]" + DrawText(name) + "[out_final]"
  }

  lemma ChainKeepsOverlay(ov: string, name: string)
    requires ov != "" && name != ""
    ensures ProgramNameGraph(Some(ov), name, true, true) == Graph(Some(ov + DrawTextTail(name)), "[out_final]")
  {
    assert ov + DrawTextTail(name) == ov + ";[out]" + DrawText(name) + "[out_final]";
  }

  /**
   With the name drawn on top of overlays, the overlay graph is kept as the
   prefix of the filter, the drawn name follows it, and the mapped output is
   renamed to `[out_final]`.
   */
  lemma DrawTextAfterOverlay(sw: Overlay.Switches, disk: set<string>, name: string)
    requires sw.overlayEnabled && (Overlay.LogoReady(sw, disk) || Overlay.BannerReady(sw, disk)) && name != ""
    ensures EncoderGraph(sw, disk, name, true, true)
         == Graph(Some(Overlay.OverlayFilter(sw, disk).value + DrawTextTail(name)), "[out_final]")
  {
    var ov := Overlay.OverlayFilter(sw, disk);
    assert Text.EndsWith(ov.value, "[out]");
    ChainKeepsOverlay(ov.value, name);
  }

  /** Without overlays the name is drawn straight onto the main video and `[out]` stays the label. */
  lemma DrawTextWithoutOverlay(sw: Overlay.Switches, disk: set<string>, name: string)
    requires !sw.overlayEnabled && name != ""
    ensures EncoderGraph(sw, disk, name, true, true) == Graph(Some("[0:v]" + DrawText(name) + "[out]"), "[out]")
    ensures FilterArgs(EncoderGraph(sw, disk, name, true, true))[3] == "[out]"
  {
  }

  /** With nothing to draw and no overlays no filter is passed, so nothing is mapped. */
  lemma NoGraphNoMap(sw: Overlay.Switches, disk: set<string>, name: string, enabled: bool, fontExists: bool)
    requires !sw.overlayEnabled && !(enabled && name != "" && fontExists)
    ensures FilterArgs(EncoderGraph(sw, disk, name, enabled, fontExists)) == []
  {
  }
}
