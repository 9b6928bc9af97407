/** The list of files that `tools/spec_parser.c` reads, one `type,dst,src` record a line. */
module SpecParser {
  import opened Bytes

  /** What `fgetc` returns at the end of the stream. */
  const EOF: int := -1
  const COMMA: int := 44
  const LF: int := 10
  const CR: int := 13
  const HASH: int := 35
  const BUFFER: nat := 4096

  type Text = seq<Byte>

  /** Bytes still to be read, and whether a read has hit the end. */
  datatype Stream = Stream(rest: Text, eof: bool)

  /** A record; the strings are without their NUL. */
  datatype Spec = Spec(kind: int, dst: Text, src: Text)

  datatype Parsed = End(after: Stream) | Got(spec: Spec, after: Stream)

  // ---- One call, on values ----

  function Char(s: Stream): int {
    if s.rest == [] then EOF else s.rest[0] as int
  }

  /** The stream after one `fgetc`. */
  function Past(s: Stream): Stream {
    if s.rest == [] then Stream([], true) else Stream(s.rest[1..], s.eof)
  }

  predicate EndsString(c: int) {
    c == LF || c == CR || c == COMMA || c == EOF
  }

  /** The end is noticed only by reading there. */
  predicate Ok(s: Stream) {
    s.eof ==> s.rest == []
  }

  /** How much a stream still has to give. */
  function Left(s: Stream): nat {
    2 * |s.rest| + (if s.eof then 0 else 1)
  }

  /** The string up to the next separator, and the stream past that. */
  function ReadString(s: Stream): (r: (Text, Stream))
    ensures Ok(s) ==> Ok(r.1)
    ensures Left(r.1) <= Left(s)
    decreases |s.rest|
  {
    if EndsString(Char(s)) then ([], Past(s))
    else
      var (t, after) := ReadString(Past(s));
      ([s.rest[0]] + t, after)
  }

  /** A character that is no line end, and the stream past it. */
  function SkipBlank(s: Stream): (r: (int, Stream))
    ensures Ok(s) ==> Ok(r.1)
    ensures if r.0 == EOF then r.1.eof else Left(r.1) < Left(s)
    ensures Left(r.1) <= Left(s)
    decreases |s.rest|
  {
    if Char(s) == LF || Char(s) == CR then SkipBlank(Past(s)) else (Char(s), Past(s))
  }

  /** The stream past a comment of which `c` was the last character read. */
  function SkipComment(c: int, s: Stream): (r: Stream)
    requires Ok(s)
    ensures Ok(r) && Left(r) <= Left(s)
    decreases Left(s)
  {
    if c == LF || s.eof then s else SkipComment(Char(s), Past(s))
  }

  function ReadRecord(kind: int, s: Stream): Parsed {
    var (dst, s1) := ReadString(Past(s));
    var (src, s2) := ReadString(s1);
    Got(Spec(kind, dst, src), s2)
  }

  /** What `parse_spec` does to a stream. */
  function ParseSpec(s: Stream): (p: Parsed)
    requires Ok(s)
    ensures Ok(p.after) && (p.Got? ==> Left(p.after) < Left(s))
    decreases Left(s)
  {
    if s.eof then End(s)
    else
      var (c, s1) := SkipBlank(s);
      if c == HASH then ParseSpec(SkipComment(c, s1)) else ReadRecord(c, s1)
  }

  /** `parse_spec` until it returns 1. */
  function ParseAll(s: Stream): seq<Spec>
    requires Ok(s)
    decreases Left(s)
  {
    match ParseSpec(s)
    case End(_) => []
    case Got(spec, after) => [spec] + ParseAll(after)
  }

  lemma ParseAllStep(s: Stream)
    requires Ok(s)
    ensures ParseAll(s) == match ParseSpec(s) case End(_) => [] case Got(spec, after) => [spec] + ParseAll(after)
  {
  }

  /** Both strings fit their buffers with a NUL. */
  predicate FitsBuffers(spec: Spec) {
    |spec.dst| < BUFFER && |spec.src| < BUFFER
  }

  // ---- What is printed ----

  /** A line of a file list. A comment begins with a hash (35). Behind the kind of a record
      any one byte is skipped, and any separator stands between its strings; both are commas
      (44) in a list as it should be. */
  datatype Line = Blank | Comment(body: Text) | Record(kind: Byte, skip: Byte, dst: Text, sep: Byte, src: Text)

  predicate Plain(t: Text) {
    forall i :: 0 <= i < |t| ==> t[i] as int != 10 && t[i] as int != 13 && t[i] as int != 44
  }

  predicate LineOk(l: Line) {
    match l
    case Blank => true
    case Comment(body) => forall i :: 0 <= i < |body| ==> body[i] as int != 10
    case Record(kind, _, dst, sep, src) =>
      && kind as int != 35 && kind as int != 10 && kind as int != 13 && Plain(dst) && Plain(src)
      && (sep as int == 10 || sep as int == 13 || sep as int == 44)
  }

  predicate LinesOk(lines: seq<Line>) {
    forall i :: 0 <= i < |lines| ==> LineOk(lines[i])
  }

  function PrintLine(l: Line): Text {
    match l
    case Blank => []
    case Comment(body) => [35] + body
    case Record(kind, skip, dst, sep, src) => [kind, skip] + dst + [sep] + src
  }

  /** How each line but the last ends: with a line feed (10) or a carriage return (13), a
      comment with a line feed, a record also with a comma (44). Carriage return and line
      feed together are a line that ends in the one and a blank line that ends in the other. */
  predicate EndsOk(lines: seq<Line>, ends: seq<Byte>) {
    |lines| == |ends| + 1 && forall i :: 0 <= i < |ends| ==> EndOk(lines[i], ends[i])
  }

  predicate EndOk(l: Line, end: Byte) {
    end as int == 10 || (end as int == 13 && !l.Comment?) || (end as int == 44 && l.Record?)
  }

  /** The lines with these ends. */
  function Print(lines: seq<Line>, ends: seq<Byte>): Text
    requires |lines| == |ends| + 1
  {
    if ends == [] then PrintLine(lines[0]) else PrintLine(lines[0]) + [ends[0]] + Print(lines[1..], ends[1..])
  }

  function Records(lines: seq<Line>): seq<Spec> {
    if lines == [] then []
    else
      var rest := Records(lines[1..]);
      if lines[0].Record? then [Spec(lines[0].kind as int, lines[0].dst, lines[0].src)] + rest else rest
  }

  /** What is read at the very end of a file that ends in a line feed. */
  const SPURIOUS: Spec := Spec(EOF, [], [])

  // ---- The round trip ----

  lemma {:induction false} ReadsString(t: Text, sep: Byte, rest: Text)
    requires Plain(t) && EndsString(sep as int)
    ensures ReadString(Stream(t + [sep] + rest, false)) == (t, Stream(rest, false))
  {
    var s := Stream(t + [sep] + rest, false);
    if t == [] {
      assert s.rest[1..] == rest;
    } else {
      assert s.rest[1..] == t[1..] + [sep] + rest;
      ReadsString(t[1..], sep, rest);
      assert [t[0]] + t[1..] == t;
    }
  }

  lemma {:induction false} ReadsLastString(t: Text)
    requires Plain(t)
    ensures ReadString(Stream(t, false)) == (t, Stream([], true))
  {
    if t != [] {
      ReadsLastString(t[1..]);
      assert [t[0]] + t[1..] == t;
    }
  }

  lemma {:induction false} SkipsComment(c: int, t: Text, rest: Text)
    requires c != LF && forall i :: 0 <= i < |t| ==> t[i] as int != LF
    ensures SkipComment(c, Stream(t + [LF as Byte] + rest, false)) == Stream(rest, false)
    decreases |t|
  {
    var s := Stream(t + [LF as Byte] + rest, false);
    if t == [] {
      assert s.rest[1..] == rest;
      assert SkipComment(LF, Past(s)) == Past(s);
    } else {
      assert s.rest[1..] == t[1..] + [LF as Byte] + rest;
      SkipsComment(t[0] as int, t[1..], rest);
    }
  }

  lemma {:induction false} SkipsLastComment(c: int, t: Text)
    requires c != LF && forall i :: 0 <= i < |t| ==> t[i] as int != LF
    ensures SkipComment(c, Stream(t, false)) == Stream([], true)
    decreases |t|
  {
    if t == [] {
      assert SkipComment(EOF, Stream([], true)) == Stream([], true);
    } else {
      SkipsLastComment(t[0] as int, t[1..]);
    }
  }

  lemma BlankRead(end: Byte, rest: Text)
    requires end as int == LF || end as int == CR
    ensures ParseSpec(Stream([end] + rest, false)) == ParseSpec(Stream(rest, false))
  {
    var s := Stream([end] + rest, false);
    assert s.rest[1..] == rest;
    assert SkipBlank(s) == SkipBlank(Stream(rest, false));
  }

  lemma CommentRead(body: Text, rest: Text)
    requires LineOk(Comment(body))
    ensures ParseSpec(Stream([HASH as Byte] + body + [LF as Byte] + rest, false)) == ParseSpec(Stream(rest, false))
  {
    hide SkipComment;
    var tail := body + [LF as Byte] + rest;
    var s := Stream([HASH as Byte] + body + [LF as Byte] + rest, false);
    assert s.rest[1..] == tail;
    assert SkipBlank(s) == (HASH, Stream(tail, false));
    SkipsComment(HASH, body, rest);
  }

  lemma RecordRead(kind: Byte, skip: Byte, dst: Text, sep: Byte, src: Text, end: Byte, rest: Text)
    requires LineOk(Record(kind, skip, dst, sep, src)) && (end as int == LF || end as int == CR || end as int == COMMA)
    ensures ParseSpec(Stream([kind, skip] + dst + [sep] + src + [end] + rest, false))
         == Got(Spec(kind as int, dst, src), Stream(rest, false))
  {
    hide ReadString, SkipComment;
    var tail := src + [end] + rest;
    var s := Stream([kind, skip] + dst + [sep] + src + [end] + rest, false);
    assert s.rest[1..][1..] == dst + [sep] + tail;
    assert SkipBlank(s) == (kind as int, Stream(s.rest[1..], false));
    ReadsString(dst, sep, tail);
    ReadsString(src, end, rest);
  }

  /** A line before the last one. */
  lemma LineRead(l: Line, end: Byte, rest: Text)
    requires LineOk(l) && EndOk(l, end)
    ensures ParseAll(Stream(PrintLine(l) + [end] + rest, false)) == Records([l]) + ParseAll(Stream(rest, false))
  {
    hide ParseSpec;
    assert [l][1..] == [];
    match l
    case Blank =>
      BlankRead(end, rest);
      assert [] + [end] + rest == [end] + rest;
    case Comment(body) =>
      CommentRead(body, rest);
    case Record(kind, skip, dst, sep, src) =>
      RecordRead(kind, skip, dst, sep, src, end, rest);
  }

  /** The last line: a blank one is read as a spurious record. */
  lemma LastLineRead(l: Line)
    requires LineOk(l)
    ensures ParseAll(Stream(PrintLine(l), false)) == Records([l]) + if l.Blank? then [SPURIOUS] else []
  {
    var text := PrintLine(l);
    var s := Stream(text, false);
    match l
    case Blank =>
      assert ParseSpec(s) == Got(SPURIOUS, Stream([], true));
    case Comment(body) =>
      assert text[1..] == body;
      assert SkipBlank(s) == (HASH, Stream(body, false));
      SkipsLastComment(HASH, body);
    case Record(kind, skip, dst, sep, src) =>
      var tail := dst + [sep] + src;
      assert text[1..] == [skip] + tail;
      assert text[1..][1..] == tail;
      ReadsString(dst, sep, src);
      ReadsLastString(src);
      assert SkipBlank(s) == (kind as int, Stream(text[1..], false));
      assert ParseSpec(s) == Got(Spec(kind as int, dst, src), Stream([], true));
  }

  lemma RecordsSplit(lines: seq<Line>)
    requires lines != []
    ensures Records(lines) == Records([lines[0]]) + Records(lines[1..])
  {
    assert [lines[0]][1..] == [];
  }

  /** Reading back what was printed gives the records, and after a last blank line one
      spurious record more. */
  lemma {:induction false} ReadsBack(lines: seq<Line>, ends: seq<Byte>)
    requires LinesOk(lines) && EndsOk(lines, ends)
    ensures ParseAll(Stream(Print(lines, ends), false)) ==
              Records(lines) + if lines[|lines| - 1].Blank? then [SPURIOUS] else []
    decreases |lines|
  {
    hide ParseAll, PrintLine, LineOk, Records, EndOk;
    var spurious := if lines[|lines| - 1].Blank? then [SPURIOUS] else [];
    if ends == [] {
      LastLineRead(lines[0]);
      assert lines == [lines[0]];
    } else {
      LineRead(lines[0], ends[0], Print(lines[1..], ends[1..]));
      ReadsBack(lines[1..], ends[1..]);
      RecordsSplit(lines);
      assert Records([lines[0]]) + (Records(lines[1..]) + spurious) == Records(lines) + spurious;
    }
  }

  /** The round trip holds exactly when the last line is not blank. */
  lemma RoundTripIff(lines: seq<Line>, ends: seq<Byte>)
    requires LinesOk(lines) && EndsOk(lines, ends)
    ensures ParseAll(Stream(Print(lines, ends), false)) == Records(lines) <==> !lines[|lines| - 1].Blank?
  {
    hide ParseAll, Print, LinesOk;
    ReadsBack(lines, ends);
  }

  /** One record and a line feed after it are read as two records. */
  lemma TrailingLineFeed(kind: Byte, dst: Text, src: Text)
    requires LineOk(Record(kind, 44, dst, 44, src))
    ensures ParseAll(Stream([kind, 44] + dst + [44] + src + [10], false)) ==
              [Spec(kind as int, dst, src), Spec(-1, [], [])]
  {
    hide ParseAll, LineOk;
    var lines := [Record(kind, 44, dst, 44, src), Blank];
    BlankOk();
    ReadsBack(lines, [LF as Byte]);
    assert lines[1..] == [Blank];
    assert Print(lines, [LF as Byte]) == [kind, COMMA as Byte] + dst + [COMMA as Byte] + src + [LF as Byte];
    RecordsSplit(lines);
    assert Records([Blank]) == [];
  }

  /** A carriage return and a line feed separate two records as a line feed alone does. */
  lemma TwoEndsOneLine(kind: Byte, dst: Text, src: Text, last: Line)
    requires LineOk(Record(kind, 44, dst, 44, src)) && LineOk(last) && !last.Blank?
    ensures ParseAll(Stream([kind, 44] + dst + [44] + src + [13, 10] + PrintLine(last), false))
         == ParseAll(Stream([kind, 44] + dst + [44] + src + [10] + PrintLine(last), false))
  {
    hide ParseAll, LineOk, PrintLine;
    var first := Record(kind, 44, dst, 44, src);
    BlankOk();
    LineRead(Blank, 10, PrintLine(last));
    LineRead(first, 13, [10] + PrintLine(last));
    LineRead(first, 10, PrintLine(last));
    RecordAndBlank(first);
    assert [] + [10] + PrintLine(last) == [10] + PrintLine(last);
    assert PrintLine(first) + [13] + ([10] + PrintLine(last)) == PrintLine(first) + [13, 10] + PrintLine(last);
    assert Records([Blank]) + ParseAll(Stream(PrintLine(last), false)) == ParseAll(Stream(PrintLine(last), false));
  }

  lemma RecordAndBlank(first: Line)
    requires first.Record?
    ensures PrintLine(first) == [first.kind, first.skip] + first.dst + [first.sep] + first.src && PrintLine(Blank) == []
    ensures Records([Blank]) == []
  {
    assert [Blank][1..] == [];
  }

  lemma BlankOk()
    ensures LineOk(Blank)
  {
  }

  // ---- The parser ----

  class SpecFile {
    var stream: Stream

    ghost predicate Valid()
      reads this
    {
      Ok(stream)
    }

    constructor (text: Text)
      ensures Valid() && stream == Stream(text, false)
    {
      stream := Stream(text, false);
    }

    method Fgetc() returns (c: int)
      requires Valid()
      modifies this
      ensures Valid() && c == Char(old(stream)) && stream == Past(old(stream))
    {
      c := Char(stream);
      stream := Past(stream);
    }

    /** `parse_spec_str` into a buffer that must have room for the NUL too. */
    method ParseSpecStr() returns (buf: Text)
      requires Valid() && |ReadString(stream).0| < BUFFER
      modifies this
      ensures Valid() && (buf, stream) == ReadString(old(stream))
    {
      ghost var whole := ReadString(stream);
      buf := [];
      assert buf + whole.0 == whole.0;
      while true
        invariant Valid() && whole == (buf + ReadString(stream).0, ReadString(stream).1)
        invariant |buf| < BUFFER
        decreases Left(stream)
      {
        var c := Fgetc();
        assert buf + [] == buf;
        if c == LF || c == CR || c == COMMA || c == EOF { break; }
        assert buf + ([c as Byte] + ReadString(stream).0) == buf + [c as Byte] + ReadString(stream).0;
        buf := buf + [c as Byte];
      }
    }

    /** `parse_spec`: nothing at the end of the stream, or the next record. */
    method ParseNext() returns (p: Parsed)
      requires Valid()
      requires ParseSpec(stream).Got? ==> FitsBuffers(ParseSpec(stream).spec)
      modifies this
      ensures Valid() && p == ParseSpec(old(stream)) && stream == p.after
    {
      hide ReadString;
      ghost var whole := ParseSpec(stream);
      while true
        invariant Valid() && ParseSpec(stream) == whole
        decreases Left(stream)
      {
        if stream.eof { return End(stream); }
        ghost var s := stream;
        var c;
        while true
          invariant Valid() && SkipBlank(stream) == SkipBlank(s)
          decreases Left(stream)
        {
          c := Fgetc();
          if c != LF && c != CR { break; }
        }
        if c == HASH {
          ghost var s1 := stream;
          while c != LF && !stream.eof
            invariant Valid() && SkipComment(c, stream) == SkipComment(HASH, s1)
            decreases Left(stream)
          {
            c := Fgetc();
          }
        } else {
          var kind := c;
          var comma := Fgetc();
          var dst := ParseSpecStr();
          var src := ParseSpecStr();
          return Got(Spec(kind, dst, src), stream);
        }
      }
    }
  }
}
