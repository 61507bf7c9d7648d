/**
 * The text frame a room broadcasts for a lifecycle event (`send`), laid out in
 * the server-sent events stream format of the HTML Living Standard
 * ("event: NAME", "data: DATA", then a blank line), and the way the
 * websocket listener on the page reads the event name back out of it.
 */
module EventFrame {
  import opened Wrappers

  /** `send(name, data)`: the frame `event: NAME\ndata: DATA\n\n`. */
  function Frame(name: string, data: string): string {
    "event: " + name + "\ndata: " + data + "\n\n"
  }

  /** JavaScript's `pieces.join(sep)`: the pieces with `sep` between neighbours. */
  function Join(pieces: seq<string>, sep: char): string
    requires |pieces| >= 1
    decreases |pieces|
  {
    if |pieces| == 1 then pieces[0] else pieces[0] + [sep] + Join(pieces[1..], sep)
  }

  /**
   * JavaScript's `str.split(sep)` for a one-character separator: the pieces
   * between separators, which joined by the separator give back `s`.
   */
  function Split(s: string, sep: char): (r: seq<string>)
    ensures |r| >= 1
    ensures forall k :: 0 <= k < |r| ==> sep !in r[k]
    ensures Join(r, sep) == s
    decreases |s|
  {
    if s == [] then [[]]
    else if s[0] == sep then
      var t := Split(s[1..], sep);
      assert ([[]] + t)[1..] == t;
      assert [sep] + s[1..] == s;
      [[]] + t
    else
      var t := Split(s[1..], sep);
      var r := [[s[0]] + t[0]] + t[1..];
      assert r[1..] == t[1..];
      assert |t| > 1 ==> Join(t, sep) == t[0] + [sep] + Join(t[1..], sep);
      assert Join(r, sep) == [s[0]] + Join(t, sep);
      assert [s[0]] + s[1..] == s;
      r
  }

  /**
   * The page's reading of a message: only one that starts with "event" names
   * an event, and the name is `data.split(' ')[1].split('\n')[0]`. `None`
   * covers both a message that is not an event and one with no second field
   * (where the script's `[1]` is undefined and the handler throws).
   */
  function ClientEventName(message: string): Option<string> {
    if |message| < 5 || message[..5] != "event" then None
    else
      var words := Split(message, ' ');
      if |words| < 2 then None else Some(Split(words[1], '\n')[0])
  }

  /** A field line of an event stream: name before the first colon, value after it less one space. */
  function SseField(line: string): (string, string) {
    var i := ColonIndex(line);
    var value := if i < |line| then line[i + 1..] else [];
    (line[..i], if value != [] && value[0] == ' ' then value[1..] else value)
  }

  /** The index of the first colon of `line`, or its length when it has none. */
  function ColonIndex(line: string): (i: nat)
    ensures i <= |line| && ':' !in line[..i]
    ensures i < |line| ==> line[i] == ':'
    decreases |line|
  {
    if line == [] then 0 else if line[0] == ':' then 0 else 1 + ColonIndex(line[1..])
  }

  /** The first colon of a line whose prefix has none is the one after that prefix. */
  lemma {:induction false} ColonAfter(p: string, rest: string)
    requires ':' !in p
    ensures ColonIndex(p + [':'] + rest) == |p|
    decreases |p|
  {
    if p != [] {
      assert (p + [':'] + rest)[1..] == p[1..] + [':'] + rest;
      ColonAfter(p[1..], rest);
    }
  }

  /** Splitting text that starts with a separator-free prefix and a separator. */
  lemma {:induction false} SplitPrefix(p: string, sep: char, rest: string)
    requires sep !in p
    ensures Split(p + [sep] + rest, sep) == [p] + Split(rest, sep)
    decreases |p|
  {
    if p == [] {
      assert p + [sep] + rest == [sep] + rest;
    } else {
      assert (p + [sep] + rest)[1..] == p[1..] + [sep] + rest;
      SplitPrefix(p[1..], sep, rest);
      assert [p[0]] + p[1..] == p;
    }
  }

  /** Text without the separator splits into itself alone. */
  lemma {:induction false} SplitWithoutSeparator(p: string, sep: char)
    requires sep !in p
    ensures Split(p, sep) == [p]
    decreases |p|
  {
    if p != [] {
      SplitWithoutSeparator(p[1..], sep);
      assert [p[0]] + p[1..] == p;
    }
  }

  /** `split` undoes `join` for pieces that do not contain the separator. */
  lemma {:induction false} SplitJoin(pieces: seq<string>, sep: char)
    requires |pieces| >= 1
    requires forall k :: 0 <= k < |pieces| ==> sep !in pieces[k]
    ensures Split(Join(pieces, sep), sep) == pieces
    decreases |pieces|
  {
    if |pieces| == 1 {
      SplitWithoutSeparator(pieces[0], sep);
    } else {
      SplitJoin(pieces[1..], sep);
      SplitPrefix(pieces[0], sep, Join(pieces[1..], sep));
      assert [pieces[0]] + pieces[1..] == pieces;
    }
  }

  /**
   * The event name round trip: for a name without a space or a newline, the
   * page reads back exactly the name that `send` framed, whatever the data.
   */
  lemma EventNameRoundTrip(name: string, data: string)
    requires ' ' !in name && '\n' !in name
    ensures ClientEventName(Frame(name, data)) == Some(name)
  {
    var f := Frame(name, data);
    var second := name + "\ndata:";
    var tail := data + "\n\n";
    assert ' ' !in second;
    assert f == "event:" + [' '] + (second + [' '] + tail);
    SplitPrefix("event:", ' ', second + [' '] + tail);
    SplitPrefix(second, ' ', tail);
    var words := Split(f, ' ');
    assert words == ["event:"] + ([second] + Split(tail, ' '));
    assert words[1] == second;
    assert second == name + ['\n'] + "data:";
    SplitPrefix(name, '\n', "data:");
    assert Split(words[1], '\n')[0] == name;
    assert f[..5] == "event";
  }

  /** A field line `NAME: VALUE` whose name has no colon reads as that name and value. */
  lemma {:induction false} FieldLine(name: string, value: string)
    requires ':' !in name
    ensures SseField(name + ": " + value) == (name, value)
  {
    var line := name + ": " + value;
    assert line == name + [':'] + (" " + value);
    ColonAfter(name, " " + value);
    assert line[..|name|] == name && line[|name| + 1..] == " " + value;
    assert (" " + value)[1..] == value;
  }

  /** The frame's lines, for a name and data without line breaks. */
  lemma FrameLines(name: string, data: string)
    requires '\n' !in name && '\n' !in data
    ensures Split(Frame(name, data), '\n') == ["event: " + name, "data: " + data, "", ""]
  {
    var l1, l2 := "event: " + name, "data: " + data;
    assert Frame(name, data) == l1 + ['\n'] + (l2 + ['\n'] + ([] + ['\n'] + []));
    SplitPrefix(l1, '\n', l2 + ['\n'] + ([] + ['\n'] + []));
    SplitPrefix(l2, '\n', [] + ['\n'] + []);
    SplitPrefix([], '\n', []);
  }

  /**
   * The frame is one server-sent event: an "event" field holding the name, a
   * "data" field holding the data, and the blank line that dispatches it,
   * when neither carries a line break.
   */
  lemma FrameIsOneEvent(name: string, data: string)
    requires '\n' !in name && '\r' !in name && '\n' !in data && '\r' !in data
    ensures '\r' !in Frame(name, data)
    ensures Split(Frame(name, data), '\n') == ["event: " + name, "data: " + data, "", ""]
    ensures SseField("event: " + name) == ("event", name)
    ensures SseField("data: " + data) == ("data", data)
  {
    FrameLines(name, data);
    FieldLine("event", name);
    assert "event" + ": " + name == "event: " + name;
    FieldLine("data", data);
    assert "data" + ": " + data == "data: " + data;
  }
}
