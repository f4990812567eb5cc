/** engine/renderer.py, the part of `render` that picks the colour the screen is filled with:
    black without a tiled map, otherwise the map's background colour string read as
    two-character hexadecimal pieces after its first character. */
module EngineRenderer {
  import opened Common
  import opened EngineComponents
  import opened FrameLogs

  /** The value of an ASCII hexadecimal digit, either case. */
  function HexValue(c: char): (r: Option<nat>)
    ensures r.Some? ==> r.value < 16
    ensures r.Some? <==> ('0' <= c <= '9' || 'a' <= c <= 'f' || 'A' <= c <= 'F')
  {
    if '0' <= c <= '9' then Some(c as int - '0' as int)
    else if 'a' <= c <= 'f' then Some(c as int - 'a' as int + 10)
    else if 'A' <= c <= 'F' then Some(c as int - 'A' as int + 10)
    else None
  }

  /** The ASCII characters Python's `int` strips around a number. */
  predicate IsSpace(c: char) {
    c in " \t\n\r\U{B}\U{C}"
  }

  /** `int(x, 16)` for a string of two characters: two digits; one digit with a space before or
      after it; or a sign and one digit. Anything else raises `ValueError`. */
  function ParseHexPair(x: string): (r: Result<int>)
    requires |x| == 2
    ensures r.Raise? ==> r.error == ValueError
    ensures r.Ok? ==> -15 <= r.value <= 255
    ensures HexValue(x[0]).Some? && HexValue(x[1]).Some? ==> r == Ok(16 * HexValue(x[0]).value + HexValue(x[1]).value)
    ensures HexValue(x[1]).None? && !IsSpace(x[1]) ==> r.Raise?
    ensures HexValue(x[0]).None? && !IsSpace(x[0]) && x[0] != '+' && x[0] != '-' ==> r.Raise?
    ensures IsSpace(x[0]) && IsSpace(x[1]) ==> r.Raise?
    ensures r.Ok? && r.value < 0 ==> x[0] == '-'
  {
    var a, b := HexValue(x[0]), HexValue(x[1]);
    if a.Some? && b.Some? then Ok(16 * a.value + b.value)
    else if IsSpace(x[0]) && b.Some? then Ok(b.value)
    else if a.Some? && IsSpace(x[1]) then Ok(a.value)
    else if x[0] == '+' && b.Some? then Ok(b.value)
    else if x[0] == '-' && b.Some? then Ok(-(b.value as int))
    else Raise(ValueError)
  }

  /** The pieces `s[i:i+2]` for `i` in `range(1, len(s) - 1, 2)`. */
  function Pairs(s: string): (ps: seq<string>)
    ensures |ps| == if |s| == 0 then 0 else (|s| - 1) / 2
    ensures forall i :: 0 <= i < |ps| ==> 3 + 2 * i <= |s| && ps[i] == s[1 + 2 * i .. 3 + 2 * i]
    ensures forall i :: 0 <= i < |ps| ==> |ps[i]| == 2
  {
    var n := if |s| == 0 then 0 else (|s| - 1) / 2;
    seq(n, i requires 0 <= i < n => s[1 + 2 * i .. 3 + 2 * i])
  }

  /** `tuple(int(x, 16) for x in pieces)`: the first piece that does not parse raises. */
  function ParseAll(ps: seq<string>): (r: Result<seq<int>>)
    requires forall i :: 0 <= i < |ps| ==> |ps[i]| == 2
    ensures r.Ok? <==> forall i :: 0 <= i < |ps| ==> ParseHexPair(ps[i]).Ok?
    ensures r.Raise? ==> r.error == ValueError
    ensures r.Ok? ==> |r.value| == |ps| && forall i :: 0 <= i < |ps| ==> r.value[i] == ParseHexPair(ps[i]).value
  {
    if ps == [] then Ok([])
    else
      match ParseHexPair(ps[0])
      case Raise(e) => Raise(e)
      case Ok(v) =>
        var tail := ps[1..];
        match ParseAll(tail)
        case Raise(e) =>
          var j :| 0 <= j < |tail| && !ParseHexPair(tail[j]).Ok?;
          assert tail[j] == ps[j + 1];
          Raise(e)
        case Ok(vs) =>
          assert forall i :: 1 <= i < |ps| ==> tail[i - 1] == ps[i];
          Ok([v] + vs)
  }

  /** The fill colour of `render`: `(0, 0, 0)` when the scene has no tiled map, otherwise the
      parsed pieces of the map's background colour string. */
  function FillColour(background: Option<string>): (r: Result<seq<int>>)
    ensures background.None? ==> r == Ok([0, 0, 0])
    ensures background.Some? ==> r == ParseAll(Pairs(background.value))
  {
    match background
    case None => Ok([0, 0, 0])
    case Some(s) => ParseAll(Pairs(s))
  }

  /** The fill colour of `render` as written. The tiled-map component is found through
      `get_object_of_type(TiledMap)`, but its class defines `__init` instead of `__init__`,
      so no `map` attribute is ever set and reading `tiled_map.map` raises `AttributeError`.
      Without a tiled map the fill is black, as in `FillColour`. */
  function FillColourAsWritten(hasTiledMap: bool): (r: Result<seq<int>>)
    ensures r.Raise? <==> hasTiledMap
    ensures hasTiledMap ==> r == Raise(AttributeError)
    ensures !hasTiledMap ==> r == FillColour(None)
  {
    if hasTiledMap then Raise(AttributeError) else Ok([0, 0, 0])
  }

  /** A freshly made `TiledMap` component carries only `Renderable`'s attribute, so the fill
      as written raises, where the intended fill reads the map's colour `#336699`. */
  method TiledMapFillRaises() returns (data: Data, asWritten: Result<seq<int>>, intended: Result<seq<int>>)
    ensures data == RenderableData(true)
    ensures asWritten == Raise(AttributeError)
    ensures intended == Ok([51, 102, 153])
  {
    var tiled := new Component(TiledMap, NoKwargs);
    data := tiled.data;
    asWritten := FillColourAsWritten(true);
    ParseFormat([51, 102, 153]);
    intended := FillColour(Some(Format([51, 102, 153])));
  }

  /** `render(scene)`'s place in the frame, for a renderer that completes. Drawing is not
      modelled; the step is recorded. */
  method Render(ghost log: FrameLog)
    modifies log`steps
    ensures log.steps == old(log.steps) + [RenderStep]
  {
    log.steps := log.steps + [RenderStep];
  }

  /** A string of `(L - 1) / 2` two-digit pieces after its first character, whatever that
      character is, parses to one component in 0..255 per piece. */
  lemma DigitsGiveBytes(s: string)
    requires forall i :: 1 <= i < |s| ==> HexValue(s[i]).Some?
    ensures var r := FillColour(Some(s));
      && r.Ok? && |r.value| == (if |s| == 0 then 0 else (|s| - 1) / 2)
      && forall i :: 0 <= i < |r.value| ==> 0 <= r.value[i] <= 255
  {
    var ps := Pairs(s);
    forall i | 0 <= i < |ps| ensures HexValue(ps[i][0]).Some? && HexValue(ps[i][1]).Some? {
      assert ps[i][0] == s[1 + 2 * i] && ps[i][1] == s[2 + 2 * i];
    }
  }

  /** The first character of the colour string is skipped without being looked at. */
  lemma FirstCharacterIgnored(c: char, d: char, rest: string)
    ensures FillColour(Some([c] + rest)) == FillColour(Some([d] + rest))
  {
    var s, t := [c] + rest, [d] + rest;
    assert Pairs(s) == Pairs(t) by {
      forall i | 0 <= i < |Pairs(s)| ensures Pairs(s)[i] == Pairs(t)[i] {
        assert s[1 + 2 * i .. 3 + 2 * i] == rest[2 * i .. 2 + 2 * i] == t[1 + 2 * i .. 3 + 2 * i];
      }
    }
  }

  /** A sign and one digit parse to a component outside 0..255: `int("-f", 16)` is -15. */
  lemma SignedPieceIsNegative()
    ensures FillColour(Some("#-f0000")) == Ok([-15, 0, 0])
  {
    var s := "#-f0000";
    var ps := Pairs(s);
    assert |ps| == 3;
    PairAt(s, ps, 0);
    PairAt(s, ps, 1);
    PairAt(s, ps, 2);
    assert ps == ["-f", "00", "00"];
    var vs := [-15, 0, 0];
    assert ParseHexPair(ps[0]) == Ok(vs[0]) && ParseHexPair(ps[1]) == Ok(vs[1]) && ParseHexPair(ps[2]) == Ok(vs[2]);
    ParseAllOk(ps, vs);
  }

  /** Pieces that each parse give the sequence of their values. */
  lemma ParseAllOk(ps: seq<string>, vs: seq<int>)
    requires forall i :: 0 <= i < |ps| ==> |ps[i]| == 2
    requires |ps| == |vs| && forall i :: 0 <= i < |ps| ==> ParseHexPair(ps[i]) == Ok(vs[i])
    ensures ParseAll(ps) == Ok(vs)
  {
    var r := ParseAll(ps);
    assert r.Ok? && |r.value| == |vs|;
    assert forall i :: 0 <= i < |vs| ==> r.value[i] == vs[i];
    assert r.value == vs;
  }

  /** The `i`-th piece is the two characters at positions `1 + 2i` and `2 + 2i`. */
  lemma PairAt(s: string, ps: seq<string>, i: nat)
    requires ps == Pairs(s) && i < |ps|
    ensures ps[i] == [s[1 + 2 * i], s[2 + 2 * i]]
  {
  }

  /** The lower-case hexadecimal digit for a value below 16. */
  function HexChar(d: nat): (c: char)
    requires d < 16
    ensures HexValue(c) == Some(d)
  {
    if d < 10 then ('0' as int + d) as char else ('a' as int + d - 10) as char
  }

  /** `#` followed by every component as two hexadecimal digits, the format of Tiled's colours. */
  function Format(rgb: seq<nat>): (s: string)
    requires forall i :: 0 <= i < |rgb| ==> rgb[i] < 256
    ensures |s| == 1 + 2 * |rgb| && s[0] == '#'
    ensures forall i :: 0 <= i < |rgb| ==> s[1 + 2 * i] == HexChar(rgb[i] / 16) && s[2 + 2 * i] == HexChar(rgb[i] % 16)
  {
    if rgb == [] then "#"
    else
      var init := Format(rgb[..|rgb| - 1]);
      var last := rgb[|rgb| - 1];
      init + [HexChar(last / 16), HexChar(last % 16)]
  }

  /** Reading a formatted colour gives back its components. */
  lemma ParseFormat(rgb: seq<nat>)
    requires forall i :: 0 <= i < |rgb| ==> rgb[i] < 256
    ensures var r := FillColour(Some(Format(rgb))); r.Ok? && r.value == rgb
  {
    var ps := Pairs(Format(rgb));
    forall i | 0 <= i < |rgb| ensures ParseHexPair(ps[i]) == Ok(rgb[i]) {
      FormattedPairAt(rgb, i);
    }
    ParseAllOk(ps, rgb);
  }

  /** The `i`-th piece of a formatted colour is component `i` in two digits. */
  lemma FormattedPairAt(rgb: seq<nat>, i: nat)
    requires forall j :: 0 <= j < |rgb| ==> rgb[j] < 256
    requires i < |rgb|
    ensures i < |Pairs(Format(rgb))| && ParseHexPair(Pairs(Format(rgb))[i]) == Ok(rgb[i] as int)
  {
    var s := Format(rgb);
    PairAt(s, Pairs(s), i);
    ParseFormattedByte(rgb[i]);
  }

  /** A value below 256 written as two hexadecimal digits reads back as itself. */
  lemma ParseFormattedByte(d: nat)
    requires d < 256
    ensures ParseHexPair([HexChar(d / 16), HexChar(d % 16)]) == Ok(d as int)
  {
  }
}
