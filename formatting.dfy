/**
 * Display helpers of Bot/core/utils/formatting.py: a user mention and a
 * compact "1d 2h 3m 4s" duration.
 *
 * Each is paired with a reader that inverts it (`MentionTarget`,
 * `ParseParts`), and the lemmas and postconditions state that reading the
 * rendered text gives back what was rendered.
 */
module Formatting {
  import opened Wrappers
  import opened Decimal
  import Parser

  // ---------------------------------------------------------------------
  // format_user_mention

  const LinkPrefix: string := "[User](tg://user?id="
  const LinkSuffix: string := ")"

  /** `username` is Python's `Optional[str]`; both `None` and `""` are falsy. */
  function FormatUserMention(userId: int, username: Option<string>): (r: string)
    ensures r != ""
  {
    if username.Some? && username.value != "" then "@" + username.value
    else LinkPrefix + IntToString(userId) + LinkSuffix
  }

  /** Whom a mention designates. */
  datatype Target = ByUsername(name: string) | ById(id: int)

  /** Reads a mention back: `@name`, or the tg://user link around a decimal id. */
  function MentionTarget(m: string): Option<Target> {
    if |m| > 0 && m[0] == '@' then Some(ByUsername(m[1..]))
    else if |m| > |LinkPrefix| + |LinkSuffix| && m[..|LinkPrefix|] == LinkPrefix && m[|m| - 1..] == LinkSuffix then
      match ParseInt(m[|LinkPrefix|..|m| - 1])
      case Some(id) => Some(ById(id))
      case None => None
    else None
  }

  /** A non-empty username is mentioned by `@username`; otherwise the user is
    * linked by id. Either way the mention designates exactly that. */
  lemma MentionRoundTrip(userId: int, username: Option<string>)
    ensures MentionTarget(FormatUserMention(userId, username))
         == Some(if username.Some? && username.value != "" then ByUsername(username.value) else ById(userId))
  {
    var m := FormatUserMention(userId, username);
    if !(username.Some? && username.value != "") {
      var digits := IntToString(userId);
      assert m[0] == '[';
      assert m[..|LinkPrefix|] == LinkPrefix;
      assert m[|LinkPrefix|..|m| - 1] == digits;
      IntRoundTrip(userId);
    }
  }

  // ---------------------------------------------------------------------
  // format_time

  /** A duration broken into days, hours, minutes and seconds. */
  datatype Clock = Clock(days: int, hours: int, minutes: int, seconds: int)

  /** The three `divmod` steps. Python's `divmod` floors; for the positive
    * divisors used here that is the same as Dafny's `/` and `%`. */
  function Decompose(seconds: int): (c: Clock)
    ensures c.days * 86400 + c.hours * 3600 + c.minutes * 60 + c.seconds == seconds
    ensures 0 <= c.hours < 24 && 0 <= c.minutes < 60 && 0 <= c.seconds < 60
    ensures seconds >= 0 <==> c.days >= 0
  {
    var m, s := seconds / 60, seconds % 60;
    var h, m' := m / 60, m % 60;
    var d, h' := h / 24, h % 24;
    assert seconds == (h * 60 + m') * 60 + s;
    assert seconds == ((d * 24 + h') * 60 + m') * 60 + s;
    Clock(d, h', m', s)
  }

  /** One rendered part, such as `3h`. */
  datatype Part = Part(value: nat, unit: char)

  predicate IsUnit(c: char) {
    c == 'd' || c == 'h' || c == 'm' || c == 's'
  }

  function UnitRank(c: char): nat {
    if c == 'd' then 0 else if c == 'h' then 1 else if c == 'm' then 2 else 3
  }

  /** The seconds a part stands for. */
  function PartSeconds(p: Part): nat {
    if p.unit == 'd' then p.value * 86400
    else if p.unit == 'h' then p.value * 3600
    else if p.unit == 'm' then p.value * 60
    else p.value
  }

  /** The carry limit of a unit below days (24 hours, 60 minutes, 60 seconds). */
  function UnitLimit(c: char): nat {
    if c == 'h' then 24 else 60
  }

  function Render(p: Part): string {
    NatToString(p.value) + [p.unit]
  }

  function RenderAll(ps: seq<Part>): (r: seq<string>)
    ensures |r| == |ps|
  {
    if ps == [] then [] else RenderAll(ps[..|ps| - 1]) + [Render(ps[|ps| - 1])]
  }

  /** Python's `sep.join(parts)`. */
  function Join(parts: seq<string>, sep: string): string {
    if |parts| == 0 then ""
    else if |parts| == 1 then parts[0]
    else Join(parts[..|parts| - 1], sep) + sep + parts[|parts| - 1]
  }

  /** Reads one part: decimal digits without a leading zero (as `f"{n}"`
    * prints them) followed by a unit letter. */
  function ParsePart(p: string): Option<Part> {
    if |p| >= 2 && IsUnit(p[|p| - 1]) && AllDigits(p[..|p| - 1]) && (|p| == 2 || p[0] != '0') then
      Some(Part(DigitsValue(p[..|p| - 1]), p[|p| - 1]))
    else None
  }

  function ParsePieces(pieces: seq<string>): Option<seq<Part>> {
    if pieces == [] then Some([])
    else
      match ParsePieces(pieces[..|pieces| - 1])
      case None => None
      case Some(ps) =>
        match ParsePart(pieces[|pieces| - 1])
        case None => None
        case Some(p) => Some(ps + [p])
  }

  /** Reads a duration text back into its parts, split on single spaces. */
  function ParseParts(text: string): Option<seq<Part>> {
    ParsePieces(Parser.SplitOn(text, ' '))
  }

  /** The number of seconds the parts add up to. */
  function Total(ps: seq<Part>): int {
    if ps == [] then 0 else Total(ps[..|ps| - 1]) + PartSeconds(ps[|ps| - 1])
  }

  function ParseDuration(text: string): Option<int> {
    match ParseParts(text)
    case None => None
    case Some(ps) => Some(Total(ps))
  }

  /** Units are d, h, m or s, in that order and each at most once, and
    * hours, minutes and seconds stay below their carry limits. */
  predicate InOrder(ps: seq<Part>) {
    && (forall i :: 0 <= i < |ps| ==> IsUnit(ps[i].unit))
    && (forall i, j :: 0 <= i < j < |ps| ==> UnitRank(ps[i].unit) < UnitRank(ps[j].unit))
    && (forall i :: 0 <= i < |ps| && ps[i].unit != 'd' ==> ps[i].value < UnitLimit(ps[i].unit))
  }

  predicate AllPositive(ps: seq<Part>) {
    forall i :: 0 <= i < |ps| ==> ps[i].value > 0
  }

  /** The shape `format_time` promises: at least one part, in order, and no
    * zero part except a lone `0s`. */
  predicate Canonical(ps: seq<Part>) {
    |ps| > 0 && InOrder(ps) && (ps == [Part(0, 's')] || AllPositive(ps))
  }

  method FormatTime(seconds: int) returns (text: string)
    ensures text == TimeText(seconds)
    ensures text != ""
    ensures seconds == 0 ==> text == "0s"
    ensures ParseParts(text).Some? && Canonical(ParseParts(text).value)
    ensures ParseDuration(text) == Some(if seconds >= 0 then seconds else seconds % 86400)
  {
    var c := Decompose(seconds);
    var days, hours, minutes, secs := c.days, c.hours, c.minutes, c.seconds;

    var parts: seq<string> := [];
    ghost var d := Stage([], days, 'd');
    if days > 0 {
      parts := parts + [Render(Part(days, 'd'))];
    }
    assert parts == RenderAll(d) by { StageRenders([], days, 'd'); }
    ghost var dh := Stage(d, hours, 'h');
    if hours > 0 {
      parts := parts + [Render(Part(hours, 'h'))];
    }
    assert parts == RenderAll(dh) by { StageRenders(d, hours, 'h'); }
    ghost var dhm := Stage(dh, minutes, 'm');
    if minutes > 0 {
      parts := parts + [Render(Part(minutes, 'm'))];
    }
    assert parts == RenderAll(dhm) by { StageRenders(dh, minutes, 'm'); }
    ghost var before := parts;
    if secs > 0 || parts == [] {
      parts := parts + [Render(Part(secs, 's'))];
    }
    assert parts == RenderAll(Shown(c)) by {
      assert |before| == |dhm|;
      if secs > 0 || dhm == [] {
        assert Shown(c) == dhm + [Part(secs, 's')];
        RenderAllSnoc(dhm, Part(secs, 's'));
      } else {
        assert Shown(c) == dhm;
      }
    }
    text := Join(parts, " ");
    assert text == TimeText(seconds);
    TimeTextReadsBack(seconds);
  }

  /** The text `format_time` returns, as a function of its input. */
  ghost function TimeText(seconds: int): string {
    Join(RenderAll(Shown(Decompose(seconds))), " ")
  }

  /** One hour renders as `1h`: zero days, minutes and seconds are omitted. */
  lemma OneHourText()
    ensures TimeText(3600) == "1h"
  {
    assert Decompose(3600) == Clock(0, 1, 0, 0);
    assert Shown(Clock(0, 1, 0, 0)) == [Part(1, 'h')];
    assert Render(Part(1, 'h')) == "1h" by { assert DigitChar(1) == '1'; }
    RenderAllSnoc([], Part(1, 'h'));
  }

  /** A day, two hours, three minutes and four seconds render as `1d 2h 3m 4s`. */
  lemma MixedText()
    ensures TimeText(93784) == "1d 2h 3m 4s"
  {
    var ps := [Part(1, 'd'), Part(2, 'h'), Part(3, 'm'), Part(4, 's')];
    MixedParts();
    MixedRendered(ps);
    MixedJoined();
  }

  lemma MixedParts()
    ensures Shown(Decompose(93784)) == [Part(1, 'd'), Part(2, 'h'), Part(3, 'm'), Part(4, 's')]
  {
    assert Decompose(93784) == Clock(1, 2, 3, 4);
  }

  lemma MixedRendered(ps: seq<Part>)
    requires ps == [Part(1, 'd'), Part(2, 'h'), Part(3, 'm'), Part(4, 's')]
    ensures RenderAll(ps) == ["1d", "2h", "3m", "4s"]
  {
    var r := ["1d", "2h", "3m", "4s"];
    assert Render(ps[0]) == r[0] by { assert DigitChar(1) == '1'; }
    assert Render(ps[1]) == r[1] by { assert DigitChar(2) == '2'; }
    assert Render(ps[2]) == r[2] by { assert DigitChar(3) == '3'; }
    assert Render(ps[3]) == r[3] by { assert DigitChar(4) == '4'; }
    RenderAllAt(ps, 0);
    RenderAllAt(ps, 1);
    RenderAllAt(ps, 2);
    RenderAllAt(ps, 3);
  }

  lemma MixedJoined()
    ensures Join(["1d", "2h", "3m", "4s"], " ") == "1d 2h 3m 4s"
  {
    var r := ["1d", "2h", "3m", "4s"];
    calc {
      Join(r, " ");
      { assert r[..3] == ["1d", "2h", "3m"]; }
      Join(["1d", "2h", "3m"], " ") + " 4s";
      { assert ["1d", "2h", "3m"][..2] == ["1d", "2h"]; }
      Join(["1d", "2h"], " ") + " 3m" + " 4s";
      { assert ["1d", "2h"][..1] == ["1d"]; }
      "1d 2h 3m 4s";
    }
  }

  /** The duration text is never empty, is `0s` for zero, and reads back as
    * canonical parts adding up to the input (modulo one day when negative). */
  lemma TimeTextReadsBack(seconds: int)
    ensures TimeText(seconds) != ""
    ensures seconds == 0 ==> TimeText(seconds) == "0s"
    ensures ParseParts(TimeText(seconds)).Some? && Canonical(ParseParts(TimeText(seconds)).value)
    ensures ParseDuration(TimeText(seconds)) == Some(if seconds >= 0 then seconds else seconds % 86400)
  {
    ShownReadsBack(seconds);
    EmptyIsNoDuration();
    if seconds == 0 {
      ZeroIsZeroSeconds();
    }
  }

  lemma EmptyIsNoDuration()
    ensures ParseParts("") == None
  {
    assert Parser.SplitOn("", ' ') == [""];
  }

  lemma ZeroIsZeroSeconds()
    ensures Join(RenderAll(Shown(Decompose(0))), " ") == "0s"
  {
    assert Decompose(0) == Clock(0, 0, 0, 0);
    assert Shown(Clock(0, 0, 0, 0)) == [Part(0, 's')];
    assert Render(Part(0, 's')) == "0s";
    assert RenderAll([Part(0, 's')]) == RenderAll([]) + ["0s"];
  }

  /** The text built from the emitted parts reads back as those parts, which
    * are canonical and add up to the duration. */
  lemma ShownReadsBack(seconds: int)
    ensures var ps := Shown(Decompose(seconds));
            && ParseParts(Join(RenderAll(ps), " ")) == Some(ps)
            && Canonical(ps)
            && Total(ps) == if seconds >= 0 then seconds else seconds % 86400
  {
    var c := Decompose(seconds);
    ShownCanonical(c);
    ShownTotal(c);
    ShownSeconds(seconds);
    RenderedPartsRoundTrip(Shown(c));
  }

  /** What the emitted parts add up to: the input itself when it is not
    * negative; for a negative input the (negative) days are dropped, leaving
    * the input modulo one day. */
  lemma ShownSeconds(seconds: int)
    ensures var c := Decompose(seconds);
            (if c.days > 0 then c.days * 86400 else 0) + c.hours * 3600 + c.minutes * 60 + c.seconds
            == if seconds >= 0 then seconds else seconds % 86400
  {
    var c := Decompose(seconds);
    var rest := c.hours * 3600 + c.minutes * 60 + c.seconds;
    assert 0 <= rest < 86400;
    if seconds < 0 {
      assert c.days < 0;
      assert seconds == c.days * 86400 + rest;
      assert seconds / 86400 == c.days;
    }
  }

  /** `ps` followed by the part `v` `u` when `v` is positive. */
  ghost function Stage(ps: seq<Part>, v: int, u: char): seq<Part> {
    if v > 0 then ps + [Part(v, u)] else ps
  }

  /** The parts `format_time` emits for a decomposed duration: every positive
    * unit, and the seconds also when nothing else was emitted. */
  ghost function Shown(c: Clock): seq<Part>
    requires 0 <= c.seconds
  {
    var dhm := Stage(Stage(Stage([], c.days, 'd'), c.hours, 'h'), c.minutes, 'm');
    if c.seconds > 0 || dhm == [] then dhm + [Part(c.seconds, 's')] else dhm
  }

  /** Rendering a stage appends the rendered part exactly when one is emitted. */
  lemma StageRenders(ps: seq<Part>, v: int, u: char)
    ensures RenderAll(Stage(ps, v, u)) == if v > 0 then RenderAll(ps) + [Render(Part(v, u))] else RenderAll(ps)
  {
    if v > 0 {
      RenderAllSnoc(ps, Part(v, u));
    }
  }

  lemma TotalSnoc(ps: seq<Part>, p: Part)
    ensures Total(ps + [p]) == Total(ps) + PartSeconds(p)
  {
    assert (ps + [p])[..|ps|] == ps;
  }

  /** Appending a part of a later unit, within its carry limit, keeps the
    * parts in order. */
  lemma OrderedSnoc(ps: seq<Part>, p: Part)
    requires InOrder(ps) && forall i :: 0 <= i < |ps| ==> UnitRank(ps[i].unit) < UnitRank(p.unit)
    requires IsUnit(p.unit) && (p.unit != 'd' ==> p.value < UnitLimit(p.unit))
    ensures InOrder(ps + [p])
  {
  }

  /** One conditional append of `format_time` keeps the parts in order and
    * positive. */
  lemma StageOrdered(ps: seq<Part>, v: int, u: char)
    requires InOrder(ps) && AllPositive(ps)
    requires forall i :: 0 <= i < |ps| ==> UnitRank(ps[i].unit) < UnitRank(u)
    requires IsUnit(u) && (u != 'd' ==> v < UnitLimit(u))
    ensures var qs := Stage(ps, v, u);
            && InOrder(qs) && AllPositive(qs)
            && (forall i :: 0 <= i < |qs| ==> UnitRank(qs[i].unit) <= UnitRank(u))
  {
    if v > 0 {
      OrderedSnoc(ps, Part(v, u));
    }
  }

  /** One conditional append of `format_time` adds the unit's seconds to the
    * total when the value is positive. */
  lemma StageTotal(ps: seq<Part>, v: int, u: char)
    ensures Total(Stage(ps, v, u)) == Total(ps) + (if v > 0 then PartSeconds(Part(v, u)) else 0)
  {
    if v > 0 {
      TotalSnoc(ps, Part(v, u));
    }
  }

  /** The emitted parts have the canonical shape. */
  lemma ShownCanonical(c: Clock)
    requires 0 <= c.hours < 24 && 0 <= c.minutes < 60 && 0 <= c.seconds < 60
    ensures Canonical(Shown(c))
  {
    var d := Stage([], c.days, 'd');
    StageOrdered([], c.days, 'd');
    var dh := Stage(d, c.hours, 'h');
    StageOrdered(d, c.hours, 'h');
    var dhm := Stage(dh, c.minutes, 'm');
    StageOrdered(dh, c.minutes, 'm');
    if c.seconds > 0 || dhm == [] {
      OrderedSnoc(dhm, Part(c.seconds, 's'));
      if c.seconds == 0 {
        assert dhm + [Part(c.seconds, 's')] == [Part(0, 's')];
      }
    }
  }

  /** The emitted parts add up to the decomposed duration, days counted only
    * when positive. */
  lemma ShownTotal(c: Clock)
    requires 0 <= c.hours && 0 <= c.minutes && 0 <= c.seconds
    ensures Total(Shown(c)) == (if c.days > 0 then c.days * 86400 else 0) + c.hours * 3600 + c.minutes * 60 + c.seconds
  {
    var d := Stage([], c.days, 'd');
    StageTotal([], c.days, 'd');
    assert Total(d) == if c.days > 0 then c.days * 86400 else 0;
    var dh := Stage(d, c.hours, 'h');
    StageTotal(d, c.hours, 'h');
    assert Total(dh) == Total(d) + c.hours * 3600;
    var dhm := Stage(dh, c.minutes, 'm');
    StageTotal(dh, c.minutes, 'm');
    assert Total(dhm) == Total(dh) + c.minutes * 60;
    if c.seconds > 0 || dhm == [] {
      TotalSnoc(dhm, Part(c.seconds, 's'));
      assert Shown(c) == dhm + [Part(c.seconds, 's')];
    } else {
      assert Shown(c) == dhm;
    }
  }

  // ---------------------------------------------------------------------
  // Reading a rendered duration back

  lemma RenderAllSnoc(ps: seq<Part>, p: Part)
    ensures RenderAll(ps + [p]) == RenderAll(ps) + [Render(p)]
  {
    assert (ps + [p])[..|ps|] == ps;
  }

  lemma SplitSnoc(z: string, c: char, sep: char)
    requires c != sep
    ensures var qs := Parser.SplitOn(z, sep);
            Parser.SplitOn(z + [c], sep) == qs[..|qs| - 1] + [qs[|qs| - 1] + [c]]
  {
    assert (z + [c])[..|z|] == z;
  }

  lemma {:induction false} SplitAppendNoSep(x: string, y: string, sep: char)
    requires sep !in y
    ensures var ps := Parser.SplitOn(x, sep);
            Parser.SplitOn(x + y, sep) == ps[..|ps| - 1] + [ps[|ps| - 1] + y]
  {
    var ps := Parser.SplitOn(x, sep);
    if y == [] {
      assert x + y == x;
      assert ps[..|ps| - 1] + [ps[|ps| - 1] + y] == ps by {
        assert ps[|ps| - 1] + y == ps[|ps| - 1];
      }
    } else {
      var y', c := y[..|y| - 1], y[|y| - 1];
      assert y == y' + [c];
      SplitAppendNoSep(x, y', sep);
      SplitAppendOne(x, y', c, sep);
    }
  }

  /** The step of `SplitAppendNoSep`: one more non-separator character
    * extends the last piece. */
  lemma SplitAppendOne(x: string, y: string, c: char, sep: char)
    requires c != sep
    requires var ps := Parser.SplitOn(x, sep);
             Parser.SplitOn(x + y, sep) == ps[..|ps| - 1] + [ps[|ps| - 1] + y]
    ensures var ps := Parser.SplitOn(x, sep);
            Parser.SplitOn(x + (y + [c]), sep) == ps[..|ps| - 1] + [ps[|ps| - 1] + (y + [c])]
  {
    var ps := Parser.SplitOn(x, sep);
    var qs := Parser.SplitOn(x + y, sep);
    calc {
      Parser.SplitOn(x + (y + [c]), sep);
      { assert x + (y + [c]) == (x + y) + [c]; }
      Parser.SplitOn((x + y) + [c], sep);
      { SplitSnoc(x + y, c, sep); }
      qs[..|qs| - 1] + [qs[|qs| - 1] + [c]];
      { assert qs[..|qs| - 1] == ps[..|ps| - 1]; }
      ps[..|ps| - 1] + [(ps[|ps| - 1] + y) + [c]];
      { assert (ps[|ps| - 1] + y) + [c] == ps[|ps| - 1] + (y + [c]); }
      ps[..|ps| - 1] + [ps[|ps| - 1] + (y + [c])];
    }
  }

  /** Splitting a join of space-free pieces on the space gives the pieces back. */
  lemma {:induction false} SplitJoin(parts: seq<string>)
    requires |parts| > 0
    requires forall i :: 0 <= i < |parts| ==> ' ' !in parts[i]
    ensures Parser.SplitOn(Join(parts, " "), ' ') == parts
  {
    if |parts| == 1 {
      SplitAppendNoSep([], parts[0], ' ');
      assert [] + parts[0] == parts[0];
    } else {
      var init, last := parts[..|parts| - 1], parts[|parts| - 1];
      var j := Join(init, " ");
      var qs := Parser.SplitOn(j + " ", ' ');
      assert qs == init + [""] by {
        SplitJoin(init);
        assert (j + " ")[..|j + " "| - 1] == j;
      }
      calc {
        Parser.SplitOn(Join(parts, " "), ' ');
        { assert Join(parts, " ") == (j + " ") + last; }
        Parser.SplitOn((j + " ") + last, ' ');
        { SplitAppendNoSep(j + " ", last, ' '); }
        qs[..|qs| - 1] + [qs[|qs| - 1] + last];
        { assert qs[..|qs| - 1] == init; assert "" + last == last; }
        init + [last];
        parts;
      }
    }
  }

  lemma ParsePartRender(p: Part)
    requires IsUnit(p.unit)
    ensures ParsePart(Render(p)) == Some(p)
  {
    var r := Render(p);
    assert r[..|r| - 1] == NatToString(p.value);
    assert r[0] == NatToString(p.value)[0];
    DigitsRoundTrip(p.value);
  }

  lemma {:induction false} ParseRenderAll(ps: seq<Part>)
    requires forall i :: 0 <= i < |ps| ==> IsUnit(ps[i].unit)
    ensures ParsePieces(RenderAll(ps)) == Some(ps)
  {
    if ps != [] {
      var init := ps[..|ps| - 1];
      ParseRenderAll(init);
      ParsePartRender(ps[|ps| - 1]);
      var rs := RenderAll(ps);
      assert rs[..|rs| - 1] == RenderAll(init);
      assert init + [ps[|ps| - 1]] == ps;
    }
  }

  lemma RenderHasNoSpace(p: Part)
    requires IsUnit(p.unit)
    ensures ' ' !in Render(p)
  {
    var r := Render(p);
    forall k | 0 <= k < |r| ensures r[k] != ' ' {
      if k < |r| - 1 { assert r[k] == NatToString(p.value)[k]; }
    }
  }

  lemma {:induction false} RenderAllAt(ps: seq<Part>, i: nat)
    requires i < |ps|
    ensures RenderAll(ps)[i] == Render(ps[i])
  {
    if i < |ps| - 1 {
      RenderAllAt(ps[..|ps| - 1], i);
    }
  }

  /** Rendered parts joined by spaces read back as the same parts. */
  lemma RenderedPartsRoundTrip(ps: seq<Part>)
    requires |ps| > 0 && forall i :: 0 <= i < |ps| ==> IsUnit(ps[i].unit)
    ensures ParseParts(Join(RenderAll(ps), " ")) == Some(ps)
  {
    var rs := RenderAll(ps);
    forall i | 0 <= i < |rs| ensures ' ' !in rs[i] {
      RenderAllAt(ps, i);
      RenderHasNoSpace(ps[i]);
    }
    SplitJoin(rs);
    ParseRenderAll(ps);
  }
}
