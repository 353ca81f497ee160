/** The part of the SVG path-data syntax that the board's renderer writes
    into the `d` attribute: absolute and relative move-to and horizontal
    line-to commands with integer coordinates. Its three pieces are how a
    command list is written as text, how that text is read back, and what a
    pen following the commands draws. */
module SvgPath {

  datatype Option<T> = None | Some(value: T)

  type Point = (int, int)

  /** `M x,y`, `H x`, `m dx,dy` and `h dx`. */
  datatype Command =
    | MoveTo(x: int, y: int)
    | HorizontalTo(x: int)
    | MoveBy(dx: int, dy: int)
    | HorizontalBy(dx: int)

  /** A straight stroke drawn by the pen. */
  datatype Line = Line(from: Point, to: Point)

  // ---------------------------------------------------------------------
  // Writing numbers and commands

  predicate IsDigit(c: char) {
    '0' <= c <= '9'
  }

  predicate AllDigits(s: string) {
    forall i :: 0 <= i < |s| ==> IsDigit(s[i])
  }

  function DigitChar(n: int): char
    requires 0 <= n < 10
  {
    (48 + n) as char
  }

  function DigitValue(c: char): int {
    c as int - 48
  }

  /** Decimal digits of `n`, most significant first, without leading zeros. */
  function NatToString(n: nat): string
    decreases n
  {
    if n < 10 then [DigitChar(n)] else NatToString(n / 10) + [DigitChar(n % 10)]
  }

  /** How a JavaScript template literal writes an integer-valued number. */
  function IntToString(i: int): string {
    if i < 0 then "-" + NatToString(-i) else NatToString(i)
  }

  /** The text of one command, as the renderer spells it: the first move-to
      is written without a leading blank, every later command with one. */
  function RenderCommand(c: Command): string {
    match c
    case MoveTo(x, y) => "M" + PairToString(x, y)
    case HorizontalTo(x) => " H" + IntToString(x)
    case MoveBy(dx, dy) => " m" + PairToString(dx, dy)
    case HorizontalBy(dx) => " h" + IntToString(dx)
  }

  /** A coordinate pair `x,y`. */
  function PairToString(x: int, y: int): string {
    IntToString(x) + "," + IntToString(y)
  }

  function Render(cmds: seq<Command>): string {
    if cmds == [] then "" else RenderCommand(cmds[0]) + Render(cmds[1..])
  }

  // ---------------------------------------------------------------------
  // Reading them back

  function DigitsValue(s: string): nat
    requires AllDigits(s)
  {
    if s == [] then 0
    else DigitsValue(s[..|s| - 1]) * 10 + DigitValue(s[|s| - 1])
  }

  /** The length of the run of digits that `s` starts with. */
  function DigitRun(s: string): (k: nat)
    ensures k <= |s| && AllDigits(s[..k])
    ensures k < |s| ==> !IsDigit(s[k])
  {
    if s == [] || !IsDigit(s[0]) then 0
    else
      var k := 1 + DigitRun(s[1..]);
      assert s[..k] == [s[0]] + s[1..][..k - 1];
      k
  }

  /** An unsigned decimal number at the start of `s`, and what follows it. */
  function ReadNat(s: string): (r: Option<(nat, string)>)
    ensures r.Some? ==> |r.value.1| < |s|
  {
    var k := DigitRun(s);
    if k == 0 then None else Some((DigitsValue(s[..k]), s[k..]))
  }

  /** An optionally negative decimal number at the start of `s`. */
  function ReadInt(s: string): (r: Option<(int, string)>)
    ensures r.Some? ==> |r.value.1| < |s|
  {
    if |s| > 0 && s[0] == '-' then
      match ReadNat(s[1..])
      case None => None
      case Some((n, rest)) => Some((0 - n, rest))
    else
      match ReadNat(s)
      case None => None
      case Some((n, rest)) => Some((n, rest))
  }

  /** `x,y` at the start of `s`. */
  function ReadPair(s: string): (r: Option<(int, int, string)>)
    ensures r.Some? ==> |r.value.2| < |s|
  {
    var first := ReadInt(s);
    if first.None? then None
    else
      var rest := first.value.1;
      if rest == [] || rest[0] != ',' then None
      else
        var second := ReadInt(rest[1..]);
        if second.None? then None
        else Some((first.value.0, second.value.0, second.value.1))
  }

  /** One command at the start of `s`, and the text after it. */
  function ParseCommand(s: string): (r: Option<(Command, string)>)
    ensures r.Some? ==> |r.value.1| < |s|
  {
    if |s| >= 1 && s[0] == 'M' then
      match ReadPair(s[1..])
      case None => None
      case Some((x, y, rest)) => Some((MoveTo(x, y), rest))
    else if |s| >= 2 && s[0] == ' ' && s[1] == 'm' then
      match ReadPair(s[2..])
      case None => None
      case Some((dx, dy, rest)) => Some((MoveBy(dx, dy), rest))
    else if |s| >= 2 && s[0] == ' ' && s[1] == 'H' then
      match ReadInt(s[2..])
      case None => None
      case Some((x, rest)) => Some((HorizontalTo(x), rest))
    else if |s| >= 2 && s[0] == ' ' && s[1] == 'h' then
      match ReadInt(s[2..])
      case None => None
      case Some((dx, rest)) => Some((HorizontalBy(dx), rest))
    else None
  }

  /** The command list a `d` attribute spells, or `None` if it is not made
      of the four command forms above. */
  function Parse(s: string): Option<seq<Command>>
    decreases |s|
  {
    if s == [] then Some([])
    else
      match ParseCommand(s)
      case None => None
      case Some((c, rest)) =>
        match Parse(rest)
        case None => None
        case Some(cs) => Some([c] + cs)
  }

  // ---------------------------------------------------------------------
  // Drawing

  /** The strokes a pen starting at `pen` draws when it follows `cmds`:
      move-tos only move it, horizontal line-tos draw from where it is. */
  function Trace(cmds: seq<Command>, pen: Point): seq<Line>
  {
    if cmds == [] then []
    else
      match cmds[0]
      case MoveTo(x, y) => Trace(cmds[1..], (x, y))
      case MoveBy(dx, dy) => Trace(cmds[1..], (pen.0 + dx, pen.1 + dy))
      case HorizontalTo(x) =>
        [Line(pen, (x, pen.1))] + Trace(cmds[1..], (x, pen.1))
      case HorizontalBy(dx) =>
        [Line(pen, (pen.0 + dx, pen.1))] + Trace(cmds[1..], (pen.0 + dx, pen.1))
  }

  // ---------------------------------------------------------------------
  // Properties

  lemma {:induction false} NatToStringDigits(n: nat)
    ensures |NatToString(n)| > 0 && AllDigits(NatToString(n))
    decreases n
  {
    if n >= 10 {
      NatToStringDigits(n / 10);
    }
  }

  /** Reading the digits of `n` gives `n` back. */
  lemma {:induction false} DigitsOfNat(n: nat)
    ensures AllDigits(NatToString(n)) && DigitsValue(NatToString(n)) == n
    decreases n
  {
    NatToStringDigits(n);
    if n >= 10 {
      var s := NatToString(n);
      DigitsOfNat(n / 10);
      assert s[..|s| - 1] == NatToString(n / 10);
    }
  }

  lemma {:induction false} DigitRunOf(ds: string, rest: string)
    requires AllDigits(ds)
    requires rest == [] || !IsDigit(rest[0])
    ensures DigitRun(ds + rest) == |ds|
    decreases |ds|
  {
    if ds != [] {
      assert (ds + rest)[1..] == ds[1..] + rest;
      DigitRunOf(ds[1..], rest);
    } else {
      assert ds + rest == rest;
    }
  }

  /** A number written by `IntToString` and followed by anything but a
      digit reads back as itself, leaving exactly what followed it. */
  lemma ReadIntOf(i: int, rest: string)
    requires rest == [] || !IsDigit(rest[0])
    ensures ReadInt(IntToString(i) + rest) == Some((i, rest))
  {
    var n: nat := if i < 0 then -i else i;
    var ds := NatToString(n);
    DigitsOfNat(n);
    DigitRunOf(ds, rest);
    assert (ds + rest)[..|ds|] == ds;
    assert (ds + rest)[|ds|..] == rest;
    assert ReadNat(ds + rest) == Some((n, rest));
    if i < 0 {
      assert ("-" + ds + rest)[1..] == ds + rest;
    } else {
      assert IsDigit((ds + rest)[0]);
    }
  }

  lemma ReadPairOf(x: int, y: int, rest: string)
    requires rest == [] || !IsDigit(rest[0])
    ensures ReadPair(PairToString(x, y) + rest) == Some((x, y, rest))
  {
    var sx, sy := IntToString(x), IntToString(y);
    ReadIntOf(x, "," + sy + rest);
    ReadIntOf(y, rest);
    ReadPairOfParts(x, y, sx, sy, rest);
  }

  lemma ReadPairOfParts(x: int, y: int, sx: string, sy: string, rest: string)
    requires ReadInt(sx + ("," + sy + rest)) == Some((x, "," + sy + rest))
    requires ReadInt(sy + rest) == Some((y, rest))
    ensures ReadPair(sx + "," + sy + rest) == Some((x, y, rest))
  {
    CommaSplit(sx, sy, rest);
  }

  lemma CommaSplit(sx: string, sy: string, rest: string)
    ensures sx + "," + sy + rest == sx + ("," + sy + rest)
    ensures ("," + sy + rest)[0] == ','
    ensures ("," + sy + rest)[1..] == sy + rest
  {
  }

  /** Reading a written command back yields the command and what followed
      it. */
  lemma ParseCommandOf(c: Command, rest: string)
    requires rest == [] || !IsDigit(rest[0])
    ensures ParseCommand(RenderCommand(c) + rest) == Some((c, rest))
  {
    match c
    case MoveTo(x, y) => ParseMoveToOf(x, y, rest);
    case MoveBy(dx, dy) => ParseMoveByOf(dx, dy, rest);
    case HorizontalTo(x) => ParseHorizontalToOf(x, rest);
    case HorizontalBy(dx) => ParseHorizontalByOf(dx, rest);
  }

  lemma ParseMoveToOf(x: int, y: int, rest: string)
    requires rest == [] || !IsDigit(rest[0])
    ensures ParseCommand("M" + PairToString(x, y) + rest) == Some((MoveTo(x, y), rest))
  {
    ReadPairOf(x, y, rest);
    LeadSplit("M", PairToString(x, y), rest);
  }

  lemma ParseMoveByOf(dx: int, dy: int, rest: string)
    requires rest == [] || !IsDigit(rest[0])
    ensures ParseCommand(" m" + PairToString(dx, dy) + rest) == Some((MoveBy(dx, dy), rest))
  {
    ReadPairOf(dx, dy, rest);
    LeadSplit(" m", PairToString(dx, dy), rest);
  }

  lemma ParseHorizontalToOf(x: int, rest: string)
    requires rest == [] || !IsDigit(rest[0])
    ensures ParseCommand(" H" + IntToString(x) + rest) == Some((HorizontalTo(x), rest))
  {
    ReadIntOf(x, rest);
    LeadSplit(" H", IntToString(x), rest);
  }

  lemma ParseHorizontalByOf(dx: int, rest: string)
    requires rest == [] || !IsDigit(rest[0])
    ensures ParseCommand(" h" + IntToString(dx) + rest) == Some((HorizontalBy(dx), rest))
  {
    ReadIntOf(dx, rest);
    LeadSplit(" h", IntToString(dx), rest);
  }

  lemma LeadSplit(lead: string, body: string, rest: string)
    requires 1 <= |lead| <= 2
    ensures (lead + body + rest)[0] == lead[0]
    ensures |lead| == 2 ==> (lead + body + rest)[1] == lead[1]
    ensures (lead + body + rest)[|lead|..] == body + rest
  {
  }

  /** Writing distributes over concatenation of command lists. */
  lemma {:induction false} RenderAppend(a: seq<Command>, b: seq<Command>)
    ensures Render(a + b) == Render(a) + Render(b)
    decreases |a|
  {
    if a != [] {
      assert (a + b)[1..] == a[1..] + b;
      RenderAppend(a[1..], b);
    } else {
      assert a + b == b;
    }
  }

  lemma RenderPair(a: Command, b: Command)
    ensures Render([a, b]) == RenderCommand(a) + RenderCommand(b)
  {
    assert [a, b][1..] == [b];
    assert [b][1..] == [];
    assert Render([b]) == RenderCommand(b) + "";
    assert RenderCommand(b) + "" == RenderCommand(b);
  }

  /** Written text is empty exactly for the empty command list, and
      otherwise starts with a command letter or a blank, never a digit. */
  lemma RenderStart(cmds: seq<Command>)
    ensures Render(cmds) == [] <==> cmds == []
    ensures cmds != [] ==> Render(cmds)[0] == 'M' || Render(cmds)[0] == ' '
  {
    if cmds != [] {
      var first := RenderCommand(cmds[0]);
      assert first[0] == 'M' || first[0] == ' ';
      assert Render(cmds)[0] == first[0];
    }
  }

  /** Round trip: reading back what `Render` writes gives the commands. */
  lemma {:induction false} ParseRender(cmds: seq<Command>)
    ensures Parse(Render(cmds)) == Some(cmds)
    decreases |cmds|
  {
    if cmds != [] {
      var rest := Render(cmds[1..]);
      RenderStart(cmds[1..]);
      ParseCommandOf(cmds[0], rest);
      RenderStart(cmds);
      ParseRender(cmds[1..]);
      assert [cmds[0]] + cmds[1..] == cmds;
    }
  }
}
