/** The wire format handled by `Node.process` (main.py:63-66): a message
    "<sender>:<command>=<data>" is split once on the first '=' and the part
    before it is split on every ':'; both unpackings must yield exactly two
    pieces, otherwise Python raises `ValueError`. */
module Message {
  import opened Wrappers

  /** The triple that `process` unpacks; `sender` stays text (it is only printed). */
  datatype Parsed = Parsed(sender: string, command: string, data: string)

  /** The two ways the unpacking at main.py:64-65 can fail. */
  datatype ParseError =
    | NoEquals       // `split("=", 1)` gave one piece: not enough values to unpack
    | ColonCount(n: nat)  // the head holds `n != 1` colons: wrong number of pieces

  /** Number of occurrences of `c` in `s`. */
  function Count(s: string, c: char): (n: nat)
    ensures n == 0 <==> c !in s
    ensures n <= |s|
  {
    if |s| == 0 then 0 else (if s[0] == c then 1 else 0) + Count(s[1..], c)
  }

  /** Position of the first `c` in `s`, as Python's `str.find` (None for -1). */
  function IndexOf(s: string, c: char): (r: Option<nat>)
    ensures r.None? <==> c !in s
    ensures r.Some? ==> r.value < |s| && s[r.value] == c && c !in s[..r.value]
  {
    if |s| == 0 then None
    else if s[0] == c then Some(0)
    else
      match IndexOf(s[1..], c)
      case None => None
      case Some(i) =>
        assert s[..i + 1] == [s[0]] + s[1..][..i];
        Some(i + 1)
  }

  lemma {:induction false} CountSplit(s: string, i: nat, c: char)
    requires i < |s| && s[i] == c && c !in s[..i]
    ensures Count(s, c) == 1 + Count(s[i + 1..], c)
    decreases i
  {
    if i > 0 {
      assert s[0] != c by { assert s[0] == s[..i][0]; }
      assert s[1..][..i - 1] == s[1..i];
      assert s[1..][i - 1 + 1..] == s[i + 1..];
      CountSplit(s[1..], i - 1, c);
    }
  }

  /** Neither separator occurs: the condition under which a sender or a
      command survives the round trip through the wire format. */
  predicate NoSeparator(s: string) {
    ':' !in s && '=' !in s
  }

  /** The text a `Parsed` triple is sent as (the template at main.py:344). */
  function Format(p: Parsed): string {
    p.sender + ":" + p.command + "=" + p.data
  }

  /** The message split at its first '=' and, inside the head, at its first
      ':' reassembles to itself. */
  lemma SplitPoints(msg: string, e: nat, c: nat)
    requires e < |msg| && msg[e] == '=' && '=' !in msg[..e]
    requires c < e && msg[c] == ':' && ':' !in msg[..e][c + 1..]
    ensures msg == msg[..e][..c] + ":" + msg[..e][c + 1..] + "=" + msg[e + 1..]
    ensures '=' !in msg[..e][c + 1..] && '=' !in msg[..e][..c]
  {
    var head := msg[..e];
    assert head == head[..c] + ":" + head[c + 1..];
    assert msg == head + "=" + msg[e + 1..];
    assert head[c + 1..] == msg[c + 1..e];
    assert head[..c] == msg[..c];
  }

  /** `Node.process` without its `print`: the unpacked triple or the
      `ValueError` it raises. Every accepted message is the formatting of its
      parse, with separator-free sender and command; a message without '='
      is rejected as such, and the other rejection is a colon count other
      than one. */
  function Parse(msg: string): (r: Result<Parsed, ParseError>)
    ensures r == Failure(NoEquals) <==> '=' !in msg
    ensures r.Success? ==>
      && Format(r.value) == msg
      && NoSeparator(r.value.sender) && NoSeparator(r.value.command)
    ensures r.Failure? && r.error.ColonCount? ==> r.error.n != 1
  {
    match IndexOf(msg, '=')
    case None => Failure(NoEquals)
    case Some(e) =>
      var head := msg[..e];
      match IndexOf(head, ':')
      case None => Failure(ColonCount(0))
      case Some(c) =>
        CountSplit(head, c, ':');
        if ':' in head[c + 1..] then Failure(ColonCount(Count(head, ':')))
        else
          SplitPoints(msg, e, c);
          Success(Parsed(head[..c], head[c + 1..], msg[e + 1..]))
  }

  /** The second failure of `process` reports how many ':' the text before
      the first '=' holds. */
  lemma ParseColonCount(msg: string)
    requires Parse(msg).Failure? && Parse(msg).error.ColonCount?
    ensures '=' in msg && Parse(msg).error.n == Count(msg[..IndexOf(msg, '=').value], ':')
  {
  }

  /** Only one position can be the first occurrence of `c`. */
  lemma IndexOfIsFirst(s: string, c: char, i: nat)
    requires i < |s| && s[i] == c && c !in s[..i]
    ensures IndexOf(s, c) == Some(i)
  {
  }

  /** Round trip: a triple whose sender and command hold neither separator
      parses back to itself from its wire form, whatever its data holds. */
  lemma {:induction false} ParseFormat(p: Parsed)
    requires NoSeparator(p.sender) && NoSeparator(p.command)
    ensures Parse(Format(p)) == Success(p)
  {
    var msg := Format(p);
    var e := |p.sender| + 1 + |p.command|;
    var head := p.sender + ":" + p.command;
    assert msg == head + "=" + p.data;
    assert msg[..e] == head;
    assert '=' !in head by {
      forall k | 0 <= k < |head| ensures head[k] != '=' {
        if k < |p.sender| { assert head[k] == p.sender[k]; }
        else if k > |p.sender| { assert head[k] == p.command[k - |p.sender| - 1]; }
      }
    }
    IndexOfIsFirst(msg, '=', e);
    assert head[..|p.sender|] == p.sender;
    IndexOfIsFirst(head, ':', |p.sender|);
    assert head[|p.sender| + 1..] == p.command;
    assert msg[e + 1..] == p.data;
  }

  /** Decimal digits of `n`, as Python's `str(n)` / f-string for an int. */
  function Decimal(n: nat): (s: string)
    ensures |s| > 0
    ensures forall k :: 0 <= k < |s| ==> '0' <= s[k] <= '9'
  {
    var d := ['0' + (n % 10) as char];
    if n < 10 then d else Decimal(n / 10) + d
  }

  /** The only message the editor ever sends, f"{id}:PING=" (main.py:344),
      always unpacks to the sender's id text, command "PING" and empty data. */
  lemma PingMessageParses(id: nat)
    ensures Parse(Decimal(id) + ":PING=") == Success(Parsed(Decimal(id), "PING", ""))
  {
    var p := Parsed(Decimal(id), "PING", "");
    assert Format(p) == Decimal(id) + ":PING=";
    var s := Decimal(id);
    assert ':' !in s && '=' !in s by {
      forall k | 0 <= k < |s| ensures s[k] != ':' && s[k] != '=' { }
    }
    ParseFormat(p);
  }
}
