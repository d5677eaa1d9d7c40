/** The chunked file reader, against plain splitting of the whole stream. */
module Lines {
  import opened Bytes

  const CHUNK: nat := 4096
  const LINE: nat := 120

  datatype Outcome = Line(text: seq<char>) | CarriageReturn | TooLong | EndOfFile

  /** One getline on the stream `s`, `got` having been read of the line: what it yields and what is left. */
  function NextLine(s: seq<char>, delim: char, got: seq<char>): (r: (Outcome, seq<char>))
    requires |got| < LINE
    ensures |r.1| <= |s| && (r.0.Line? ==> |r.1| < |s|)
    decreases |s|
  {
    if s == [] then (EndOfFile, s)
    else if s[0] == delim then (Line(got), s[1..])
    else if s[0] == '\r' then (CarriageReturn, s[1..])
    else if |got| + 1 >= LINE then (TooLong, s[1..])
    else NextLine(s[1..], delim, got + [s[0]])
  }

  predicate Plain(t: seq<char>, delim: char) { delim !in t && '\r' !in t }

  /** What precedes a delimiter is returned as a line exactly when it is short and has no carriage return. */
  lemma {:induction false} LineFound(t: seq<char>, delim: char, rest: seq<char>, got: seq<char>)
    requires Plain(t, delim) && |got| + |t| < 120
    ensures NextLine(t + [delim] + rest, delim, got) == (Line(got + t), rest)
    decreases |t|
  {
    var s := t + [delim] + rest;
    if t == [] {
      assert s[1..] == rest && got + t == got;
    } else {
      assert s[1..] == t[1..] + [delim] + rest;
      LineFound(t[1..], delim, rest, got + [t[0]]);
      assert got + [t[0]] + t[1..] == got + t;
    }
  }

  /** What a call yields says exactly how the stream starts. The four cases exclude each other, so each
      outcome happens if and only if the stream starts that way. */
  lemma {:induction false} LineExact(s: seq<char>, delim: char, got: seq<char>) returns (t: seq<char>)
    requires |got| < LINE
    ensures Plain(t, delim)
    ensures var (o, rest) := NextLine(s, delim, got);
      match o
      case Line(text) => text == got + t && |text| < 120 && s == t + [delim] + rest
      case CarriageReturn => |got| + |t| < 120 && delim != '\r' && s == t + ['\r'] + rest
      case TooLong => |got| + |t| == 120 && s == t + rest
      case EndOfFile => |got| + |t| < 120 && s == t && rest == []
    decreases |s|
  {
    t := [];
    var (o, rest) := NextLine(s, delim, got);
    if s == [] {
    } else if s[0] == delim {
      assert s == [] + [delim] + s[1..] && got + [] == got;
    } else if s[0] == '\r' {
      assert s == [] + ['\r'] + s[1..];
    } else if |got| + 1 >= LINE {
      t := [s[0]];
      assert s == t + s[1..];
    } else {
      var u := LineExact(s[1..], delim, got + [s[0]]);
      t := [s[0]] + u;
      assert s == [s[0]] + s[1..];
      hide NextLine;
      assert got + t == got + [s[0]] + u;
      assert t + [delim] + rest == [s[0]] + (u + [delim] + rest);
      assert t + ['\r'] + rest == [s[0]] + (u + ['\r'] + rest);
      assert t + rest == [s[0]] + (u + rest);
    }
  }

  /** All lines successive calls return, and how the run ends. */
  function ReadLines(s: seq<char>, delim: char): (seq<seq<char>>, Outcome)
    decreases |s|
  {
    var (o, rest) := NextLine(s, delim, []);
    if !o.Line? then ([], o)
    else var (ls, e) := ReadLines(rest, delim); ([o.text] + ls, e)
  }

  function Join(ls: seq<seq<char>>, delim: char): seq<char>
  {
    if ls == [] then [] else ls[0] + [delim] + Join(ls[1..], delim)
  }

  /** A stream of short lines without carriage returns is read back line by line; the unfinished last
      line is not returned. */
  lemma {:induction false} ReadsWhatWasJoined(ls: seq<seq<char>>, last: seq<char>, delim: char)
    requires (forall l <- ls :: Plain(l, delim) && |l| < 120) && Plain(last, delim) && |last| < 120
    ensures ReadLines(Join(ls, delim) + last, delim) == (ls, EndOfFile)
    decreases |ls|
  {
    hide ReadLines, Plain;
    if ls == [] {
      assert Join(ls, delim) + last == last;
      UnfinishedLine(last, delim);
    } else {
      var rest := Join(ls[1..], delim) + last;
      assert Join(ls, delim) + last == ls[0] + [delim] + rest;
      FirstLine(ls[0], rest, delim);
      ReadsWhatWasJoined(ls[1..], last, delim);
      assert ls == [ls[0]] + ls[1..];
    }
  }

  lemma UnfinishedLine(last: seq<char>, delim: char)
    requires Plain(last, delim) && |last| < LINE
    ensures ReadLines(last, delim) == ([], EndOfFile)
  {
    var t := LineExact(last, delim, []);
    assert NextLine(last, delim, []).0.Line? ==> delim in last;
    assert NextLine(last, delim, []).0.CarriageReturn? ==> '\r' in last;
  }

  lemma FirstLine(l: seq<char>, rest: seq<char>, delim: char)
    requires Plain(l, delim) && |l| < LINE
    ensures ReadLines(l + [delim] + rest, delim) == ([l] + ReadLines(rest, delim).0, ReadLines(rest, delim).1)
  {
    LineFound(l, delim, rest, []);
    assert [] + l == l;
    hide NextLine, Plain;
  }

  /** Conversely the lines returned, joined again, are how the stream starts. */
  lemma {:induction false} JoinedLinesStartStream(s: seq<char>, delim: char)
    ensures Join(ReadLines(s, delim).0, delim) <= s
    decreases |s|
  {
    var (o, rest) := NextLine(s, delim, []);
    if o.Line? {
      var t := LineExact(s, delim, []);
      assert [] + t == t;
      JoinedLinesStartStream(rest, delim);
      var ls := ReadLines(rest, delim).0;
      assert ([o.text] + ls)[1..] == ls;
    }
  }

  // ---- the reader ----

  function Flat(chunks: seq<seq<char>>): seq<char>
  {
    if chunks == [] then [] else chunks[0] + Flat(chunks[1..])
  }

  class FileBuffer {
    const buf: array<char>
    const line: array<char>
    var ind: nat
    var bytes: nat
    /** What successive reads of the file will yield; nothing left makes the read raise. */
    var file: seq<seq<char>>

    ghost predicate Valid()
      reads this
    {
      && buf.Length == CHUNK && line.Length == LINE && buf != line && ind <= bytes <= CHUNK
      && forall c <- file :: 0 < |c| <= CHUNK
    }

    /** The stream still to be read, however it is cut. */
    ghost function Stream(): seq<char>
      requires Valid()
      reads this, buf
    {
      buf[ind..bytes] + Flat(file)
    }

    constructor (file: seq<seq<char>>)
      requires forall c <- file :: 0 < |c| <= 4096
      ensures Valid() && Stream() == Flat(file) && fresh(buf) && fresh(line)
    {
      buf, line := new char[CHUNK](i => ' '), new char[LINE](i => ' ');
      ind, bytes := 0, 0;
      this.file := file;
    }

    method Getc() returns (c: Option<char>)
      requires Valid()
      modifies `ind, `bytes, `file, buf
      ensures Valid()
      ensures var s := old(Stream());
        if s == [] then c == None && Stream() == s else c == Some(s[0]) && Stream() == s[1..]
    {
      if ind >= bytes {
        if file == [] { return None; }
        var chunk := file[0];
        assert chunk in file;
        forall i | 0 <= i < |chunk| { buf[i] := chunk[i]; }
        assert buf[0..|chunk|] == chunk;
        bytes, ind, file := |chunk|, 0, file[1..];
      }
      c := Some(buf[ind]);
      assert buf[ind..bytes][1..] == buf[ind + 1..bytes];
      assert Stream()[1..] == buf[ind + 1..bytes] + Flat(file);
      ind := ind + 1;
    }

    /** Reads a line; the chunks the stream comes in make no difference. */
    method Getline(delim: char) returns (r: Outcome)
      requires Valid()
      modifies `ind, `bytes, `file, buf, line
      ensures Valid() && (r, Stream()) == NextLine(old(Stream()), delim, [])
    {
      var idx := 0;
      assert line[..0] == [];
      while true
        invariant Valid() && idx < LINE
        invariant NextLine(old(Stream()), delim, []) == NextLine(Stream(), delim, line[..idx])
        decreases |Stream()|
      {
        var c := Getc();
        if c.None? { return EndOfFile; }
        ghost var got := line[..idx];
        line[idx] := c.value;
        if c.value == delim { return Line(line[..idx]); }
        if c.value == '\r' { return CarriageReturn; }
        idx := idx + 1;
        if idx >= LINE { return TooLong; }
        assert line[..idx] == got + [c.value];
      }
    }
  }
}
