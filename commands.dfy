/** The command grammar and dispatcher of the remote-control channel
    (RemoteControlServer.process_command): one trimmed line becomes at most
    one call on the input-action surface. */
module Commands {
  import opened Wrappers
  import opened Sequences
  import opened Numerals

  datatype Button = Left | Right

  /** One call on the input-action surface (pyautogui). */
  datatype Action =
    | MoveRel(dx: int, dy: int)   // moveRel(dx, dy, duration=0)
    | Click(button: Button)       // click() and click(button='right')
    | Scroll(clicks: int)         // scroll(clicks)
    | Write(text: string)         // write(text)
    | Press(key: string)          // press(key)
    | KeyDown(key: string)        // keyDown(key)
    | KeyUp(key: string)          // keyUp(key)

  /** The exception a `move:` line raises when its payload is not two
      integers separated by one comma (int() or the unpacking fails). */
  datatype CommandError = MalformedMove

  /** Pointer deltas are multiplied by this before the relative move. */
  const MOVE_SCALE := 3
  /** Magnitude of one scroll command. */
  const SCROLL_STEP := 100

  /** The actions one line causes, in the order of the source's if/elif
      chain: `move:` first, `up:` last, anything else nothing. */
  function Dispatch(msg: string): (r: Result<seq<Action>, CommandError>)
    ensures r.Success? ==> |r.value| <= 1
    ensures r.Failure? ==> StartsWith(msg, "move:")
  {
    if StartsWith(msg, "move:") then Move(msg[5..])
    else if msg == "left_click" then Success([Click(Left)])
    else if msg == "right_click" then Success([Click(Right)])
    else if StartsWith(msg, "scroll:") then Success([Scroll(ScrollAmount(msg))])
    else if StartsWith(msg, "text:") then Success([Write(msg[5..])])
    else if StartsWith(msg, "key:") then Success([Press(msg[4..])])
    else if StartsWith(msg, "media:") then Success(Media(msg[6..]))
    else if StartsWith(msg, "down:") then Success([KeyDown(msg[5..])])
    else if StartsWith(msg, "up:") then Success([KeyUp(msg[3..])])
    else Success([])
  }

  /** A `move:` payload must be two integers separated by one comma; the
      pointer moves by each times MOVE_SCALE. Anything else is the failure
      the unpacking or the integer conversion raises. */
  function Move(payload: string): (r: Result<seq<Action>, CommandError>)
    ensures r.Success? ==> |r.value| == 1 && r.value[0].MoveRel?
  {
    var fields := Split(payload, ",");
    if |fields| == 2 && ParseInt(fields[0]).Some? && ParseInt(fields[1]).Some? then
      Success([MoveRel(ParseInt(fields[0]).value * MOVE_SCALE, ParseInt(fields[1]).value * MOVE_SCALE)])
    else
      Failure(MalformedMove)
  }

  /** The field after the first colon decides the direction: `down`
      scrolls down by SCROLL_STEP, any other word scrolls up. */
  function ScrollAmount(msg: string): (amount: int)
    requires StartsWith(msg, "scroll:")
    ensures amount == -SCROLL_STEP || amount == SCROLL_STEP
  {
    ScrollSplits(msg);
    var direction := Split(msg, ":")[1];
    if direction == "down" then -SCROLL_STEP else SCROLL_STEP
  }

  /** The media words and the keys they press. */
  function Media(media: string): (r: seq<Action>)
    ensures |r| <= 1
  {
    if media == "play_pause" then [Press("playpause")]
    else if media == "next" then [Press("nexttrack")]
    else if media == "prev" then [Press("prevtrack")]
    else []
  }

  /** A line whose `k`-th character differs from the prefix's does not
      start with it; this is what tells the branches of the if/elif chain
      apart. */
  lemma DiffersAt(msg: string, p: string, k: nat)
    requires k < |p| && k < |msg| && msg[k] != p[k]
    ensures !StartsWith(msg, p)
  {
    if |p| <= |msg| {
      assert msg[..|p|][k] == msg[k];
    }
  }

  /** A `scroll:` line holds a colon, so `split(":")[1]` exists. */
  lemma ScrollSplits(msg: string)
    requires StartsWith(msg, "scroll:")
    ensures |Split(msg, ":")| >= 2
  {
    assert msg[6] == "scroll:"[6] == ':';
    FindSingle(msg, ':');
    SplitContains(msg, ":");
  }

  /** Splitting `a,b` on commas when neither side holds a comma. */
  lemma SplitPair(a: string, b: string)
    requires ',' !in a && ',' !in b
    ensures Split(a + "," + b, ",") == [a, b]
  {
    FindSingleAt(a + ",", ',', |a|);
    assert (a + ",")[..|a|] == a;
    FindSingle(b, ',');
    SplitUnique(a + "," + b, ",", [a, b]);
  }

  /** A `move:` line with exactly one comma: two integer literals move the
      pointer by three times their values; anything else is the failure. */
  lemma MoveLine(a: string, b: string)
    requires ',' !in a && ',' !in b
    ensures Dispatch("move:" + a + "," + b) ==
      if ParseInt(a).Some? && ParseInt(b).Some? then
        Success([MoveRel(ParseInt(a).value * 3, ParseInt(b).value * 3)])
      else Failure(MalformedMove)
  {
    var msg := "move:" + a + "," + b;
    assert msg[..5] == "move:";
    assert msg[5..] == a + "," + b;
    SplitPair(a, b);
    assert Move(a + "," + b) == Dispatch(msg);
  }

  /** `move:<dx>,<dy>` written with Python's `str` yields one relative move
      of (dx * 3, dy * 3). */
  lemma MoveOfIntegers(dx: int, dy: int)
    ensures Dispatch("move:" + FormatInt(dx) + "," + FormatInt(dy)) == Success([MoveRel(dx * 3, dy * 3)])
  {
    var a, b := FormatInt(dx), FormatInt(dy);
    assert ',' !in a by {
      forall k | 0 <= k < |a| ensures a[k] != ',' { }
    }
    assert ',' !in b by {
      forall k | 0 <= k < |b| ensures b[k] != ',' { }
    }
    ParseFormat(dx);
    ParseFormat(dy);
    MoveLine(a, b);
  }

  /** A `move:` payload with no comma or with several commas is the failure,
      whatever its fields are. */
  lemma MoveCommaCount(payload: string)
    requires Count(payload, ',') != 1
    ensures Dispatch("move:" + payload) == Failure(MalformedMove)
  {
    var msg := "move:" + payload;
    assert msg[..5] == "move:";
    assert msg[5..] == payload;
    SplitSingleCount(payload, ',');
    assert Move(payload) == Failure(MalformedMove);
  }

  /** `scroll:<tok>`, optionally followed by `:` and more: the token before
      the next colon decides the sign, -100 for `down` and +100 otherwise. */
  lemma ScrollLine(tok: string, tail: string)
    requires ':' !in tok
    requires tail == [] || tail[0] == ':'
    ensures Dispatch("scroll:" + tok + tail) ==
      Success([Scroll(if tok == "down" then -100 else 100)])
  {
    var msg := "scroll:" + tok + tail;
    assert msg[..7] == "scroll:";
    DiffersAt(msg, "move:", 0);
    assert Dispatch(msg) == Success([Scroll(ScrollAmount(msg))]);
    ScrollDirection(tok, tail);
  }

  /** `split(":")[1]` of a scroll line is the token after `scroll:`. */
  lemma ScrollDirection(tok: string, tail: string)
    requires ':' !in tok
    requires tail == [] || tail[0] == ':'
    ensures |Split("scroll:" + tok + tail, ":")| >= 2
    ensures Split("scroll:" + tok + tail, ":")[1] == tok
  {
    ScrollSecondPiece(tok + tail);
    assert "scroll:" + tok + tail == "scroll:" + (tok + tail);
    ScrollTokenPiece(tok, tail);
  }

  lemma ScrollSecondPiece(rest: string)
    ensures |Split("scroll:" + rest, ":")| >= 2
    ensures Split("scroll:" + rest, ":")[1] == Split(rest, ":")[0]
  {
    var msg := "scroll:" + rest;
    assert msg[..6] == "scroll" && msg[6] == ':';
    FindSingleAt(msg, ':', 6);
    assert msg[7..] == rest;
    var p := Split(msg, ":");
    var t := Split(rest, ":");
    assert |p| == 1 + |t|;
    assert p[1] == t[0];
  }

  lemma ScrollTokenPiece(tok: string, tail: string)
    requires ':' !in tok
    requires tail == [] || tail[0] == ':'
    ensures Split(tok + tail, ":")[0] == tok
  {
    var rest := tok + tail;
    SplitFirst(rest, ":");
    FindSingle(rest, ':');
    if tail == [] {
      assert rest == tok;
    } else {
      FindSingleAt(rest, ':', |tok|);
      assert rest[..|tok|] == tok;
    }
  }

  /** The two exact words click the left and the right button. */
  lemma ClickWords()
    ensures Dispatch("left_click") == Success([Click(Left)])
    ensures Dispatch("right_click") == Success([Click(Right)])
  {
    DiffersAt("left_click", "move:", 0);
    DiffersAt("right_click", "move:", 0);
  }

  /** `scroll:down` and `scroll:up` scroll by opposite amounts. */
  lemma ScrollOpposite()
    ensures Dispatch("scroll:down") == Success([Scroll(-100)])
    ensures Dispatch("scroll:up") == Success([Scroll(100)])
  {
    var down, up := "scroll:down", "scroll:up";
    assert down == "scroll:" + "down" + [];
    assert up == "scroll:" + "up" + [];
    ScrollLine("down", []);
    ScrollLine("up", []);
  }

  /** `text:` types exactly the rest of the line. */
  lemma TextLine(t: string)
    ensures Dispatch("text:" + t) == Success([Write(t)])
  {
    var msg := "text:" + t;
    assert msg[..5] == "text:" && msg[5..] == t;
    DiffersAt(msg, "move:", 0);
    DiffersAt(msg, "scroll:", 0);
  }

  /** `key:` presses exactly the rest of the line. */
  lemma KeyLine(k: string)
    ensures Dispatch("key:" + k) == Success([Press(k)])
  {
    var msg := "key:" + k;
    assert msg[..4] == "key:" && msg[4..] == k;
    DiffersAt(msg, "move:", 0);
    DiffersAt(msg, "scroll:", 0);
    DiffersAt(msg, "text:", 0);
  }

  /** `down:` holds down exactly the rest of the line. */
  lemma DownLine(k: string)
    ensures Dispatch("down:" + k) == Success([KeyDown(k)])
  {
    var msg := "down:" + k;
    assert msg[..5] == "down:" && msg[5..] == k;
    DiffersAt(msg, "move:", 0);
    DiffersAt(msg, "scroll:", 0);
    DiffersAt(msg, "text:", 0);
    DiffersAt(msg, "key:", 0);
    DiffersAt(msg, "media:", 0);
  }

  /** `up:` releases exactly the rest of the line. */
  lemma UpLine(k: string)
    ensures Dispatch("up:" + k) == Success([KeyUp(k)])
  {
    var msg := "up:" + k;
    assert msg[..3] == "up:" && msg[3..] == k;
    DiffersAt(msg, "move:", 0);
    DiffersAt(msg, "scroll:", 0);
    DiffersAt(msg, "text:", 0);
    DiffersAt(msg, "key:", 0);
    DiffersAt(msg, "media:", 0);
    DiffersAt(msg, "down:", 0);
  }

  /** The three media words press the media keys; any other `media:`
      payload does nothing. */
  lemma MediaLine(m: string)
    ensures Dispatch("media:" + m) ==
      if m == "play_pause" then Success([Press("playpause")])
      else if m == "next" then Success([Press("nexttrack")])
      else if m == "prev" then Success([Press("prevtrack")])
      else Success([])
  {
    var msg := "media:" + m;
    assert msg[..6] == "media:" && msg[6..] == m;
    DiffersAt(msg, "move:", 1);
    DiffersAt(msg, "scroll:", 0);
    DiffersAt(msg, "text:", 0);
    DiffersAt(msg, "key:", 0);
  }

  /** A line that is neither an exact word nor starts with a known prefix
      does nothing and is no failure. */
  lemma UnknownLine(msg: string)
    requires msg != "left_click" && msg != "right_click"
    requires forall p :: p in {"move:", "scroll:", "text:", "key:", "media:", "down:", "up:"} ==> !StartsWith(msg, p)
    ensures Dispatch(msg) == Success([])
  {
  }
}
