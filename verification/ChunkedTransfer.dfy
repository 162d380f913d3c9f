/** Chunked transfer encoding as the HTTP server sends it (`send_chunked` of
    conpot/protocols/http/command_responder.py), against a decoder written from section 4.1.3 of
    RFC 7230. */
module ChunkedTransfer {
  import opened Bytes
  import opened Common

  const CRLF := "\r\n"

  // ----- hexadecimal numbers

  function HexDigit(d: nat): char
    requires d < 16
  {
    if d < 10 then ('0' as int + d) as char else ('A' as int + d - 10) as char
  }

  function Hex(n: nat): (s: string)
    ensures s != []
  {
    if n < 16 then [HexDigit(n)] else Hex(n / 16) + [HexDigit(n % 16)]
  }

  lemma {:induction false} HexIsClean(n: nat)
    ensures forall c :: c in Hex(n) ==> c != '\r' && c != ';'
  {
    if n >= 16 {
      HexIsClean(n / 16);
    }
  }

  /** `format(n, 'x').upper()` */
  function FormatHex(n: int): string {
    if n < 0 then "-" + Hex(-n) else Hex(n)
  }

  function DigitValue(c: char): Option<nat> {
    if '0' <= c <= '9' then Some(c as nat - '0' as nat)
    else if 'A' <= c <= 'F' then Some(c as nat - 'A' as nat + 10)
    else if 'a' <= c <= 'f' then Some(c as nat - 'a' as nat + 10)
    else None
  }

  /** `1*HEXDIG` */
  function ParseHex(s: string): Option<nat> {
    if s == [] then None
    else
      match DigitValue(s[|s| - 1])
      case None => None
      case Some(d) =>
        if |s| == 1 then Some(d)
        else
          match ParseHex(s[..|s| - 1])
          case None => None
          case Some(n) => Some(n * 16 + d)
  }

  lemma DigitRoundTrip(d: nat)
    requires d < 16
    ensures DigitValue(HexDigit(d)) == Some(d)
  {
  }

  lemma {:induction false} HexRoundTrip(n: nat)
    ensures ParseHex(Hex(n)) == Some(n)
  {
    DigitRoundTrip(n % 16);
    if n >= 16 {
      HexRoundTrip(n / 16);
      assert Hex(n)[..|Hex(n)| - 1] == Hex(n / 16);
    }
  }

  // ----- sending

  /** `s[lo:hi]` */
  function PySlice(s: string, lo: int, hi: int): string {
    var l, h := Clamp(lo, |s|), Clamp(hi, |s|);
    if l <= h then s[l..h] else []
  }

  function Clamp(i: int, length: nat): (r: nat)
    ensures r <= length
  {
    if i + length < 0 then 0 else if i < 0 then i + length else if i > length then length else i
  }

  type Field = (string, string)

  /** A chunk: the announced width and the data that goes with it. */
  type Piece = (int, string)

  function ChunkText(p: Piece): string {
    FormatHex(p.0) + CRLF + p.1 + CRLF
  }

  function Wire(ps: seq<Piece>): string {
    if ps == [] then [] else Wire(ps[..|ps| - 1]) + ChunkText(ps[|ps| - 1])
  }

  /** The chunks that go out: one for each width, and one for what they leave over. */
  function Pieces(widths: seq<int>, payload: string, pointer: int): (ps: seq<Piece>)
    decreases |widths|
  {
    if widths != [] then
      [(widths[0], PySlice(payload, pointer, pointer + widths[0]))]
      + Pieces(widths[1..], payload, pointer + widths[0])
    else if |payload| > pointer then [(|payload| - pointer, PySlice(payload, pointer, |payload|))]
    else []
  }

  function FieldLine(f: Field): string {
    f.0 + ": " + f.1 + CRLF
  }

  function FieldLines(fs: seq<Field>): string {
    if fs == [] then [] else FieldLine(fs[0]) + FieldLines(fs[1..])
  }

  function Ending(trailers: seq<Field>): string {
    "0" + CRLF + FieldLines(trailers) + CRLF
  }

  function Output(widths: seq<int>, payload: string, trailers: seq<Field>): string {
    Wire(Pieces(widths, payload, 0)) + Ending(trailers)
  }

  lemma Regroup(a: string, b: string, c: string, d: string)
    ensures a + b + c + d == a + (b + c + d)
  {
  }

  lemma WireSnoc(ps: seq<Piece>, p: Piece)
    ensures Wire(ps + [p]) == Wire(ps) + ChunkText(p)
  {
    assert (ps + [p])[..|ps|] == ps;
  }

  class Handler {
    var wfile: string

    constructor ()
      ensures wfile == []
    {
      wfile := [];
    }

    method Write(s: string)
      modifies this
      ensures wfile == old(wfile) + s
    {
      wfile := wfile + s;
    }

    /** `send_chunked`, given the widths split from the configured text. */
    method SendChunked(widths: seq<int>, payload: string, trailers: seq<Field>)
      modifies this
      ensures wfile == old(wfile) + Output(widths, payload, trailers)
    {
      var pointer := 0;
      ghost var sent: seq<Piece> := [];
      ghost var begin := wfile;
      for i := 0 to |widths|
        invariant wfile == begin + Wire(sent)
        invariant sent + Pieces(widths[i..], payload, pointer) == Pieces(widths, payload, 0)
      {
        var cwidth := widths[i];
        assert widths[i..][1..] == widths[i + 1..];
        var piece := (cwidth, PySlice(payload, pointer, pointer + cwidth));
        WriteChunk(piece, begin, sent);
        pointer := pointer + cwidth;
        Assoc(sent, [piece], Pieces(widths[i + 1..], payload, pointer));
        sent := sent + [piece];
      }
      assert widths[|widths|..] == [];
      if |payload| > pointer {
        var piece := (|payload| - pointer, PySlice(payload, pointer, |payload|));
        WriteChunk(piece, begin, sent);
        sent := sent + [piece];
      }
      assert sent == Pieces(widths, payload, 0);
      SendEnding(trailers);
      Assoc(begin, Wire(sent), Ending(trailers));
    }

    /** The size line and the data line of one chunk. */
    method WriteChunk(p: Piece, ghost begin: string, ghost sent: seq<Piece>)
      requires wfile == begin + Wire(sent)
      modifies this
      ensures wfile == begin + Wire(sent + [p])
    {
      ghost var size := FormatHex(p.0) + CRLF;
      Write(FormatHex(p.0) + CRLF);
      Write(p.1 + CRLF);
      Assoc(size, p.1, CRLF);
      Assoc(begin + Wire(sent), size, p.1 + CRLF);
      Assoc(begin, Wire(sent), ChunkText(p));
      WireSnoc(sent, p);
    }

    /** The last chunk, the trailers and the closing line of `send_chunked`. */
    method SendEnding(trailers: seq<Field>)
      modifies this
      ensures wfile == old(wfile) + Ending(trailers)
    {
      ghost var begin := wfile;
      ghost var last := "0" + CRLF;
      Write("0" + CRLF);
      for i := 0 to |trailers|
        invariant wfile + FieldLines(trailers[i..]) == begin + last + FieldLines(trailers)
      {
        var line := trailers[i].0 + ": " + trailers[i].1 + CRLF;
        assert trailers[i..][1..] == trailers[i + 1..];
        Assoc(wfile, line, FieldLines(trailers[i + 1..]));
        Write(line);
      }
      assert trailers[|trailers|..] == [] && wfile + [] == wfile;
      Write(CRLF);
      Assoc(begin, last, FieldLines(trailers));
      Assoc(begin, last + FieldLines(trailers), CRLF);
    }
  }

  // ----- reference decoder

  function ReadLine(s: string): Option<(string, string)> {
    if |s| < 2 then None
    else if s[0] == '\r' && s[1] == '\n' then Some(("", s[2..]))
    else
      match ReadLine(s[1..])
      case None => None
      case Some((line, rest)) => Some(([s[0]] + line, rest))
  }

  lemma ReadLineShrinks(s: string)
    ensures ReadLine(s).Some? ==> |ReadLine(s).value.1| < |s|
  {
  }

  /** The part of a chunk line before any chunk extension. */
  function SizePart(line: string): string {
    if line == [] || line[0] == ';' then [] else [line[0]] + SizePart(line[1..])
  }

  function DecodeChunks(s: string): Option<(string, string)>
    decreases |s|
  {
    ReadLineShrinks(s);
    match ReadLine(s)
    case None => None
    case Some((line, rest)) =>
      match ParseHex(SizePart(line))
      case None => None
      case Some(size) =>
        if size == 0 then Some(("", rest))
        else if |rest| < size + 2 || rest[size..size + 2] != CRLF then None
        else Joined(rest[..size], DecodeChunks(rest[size + 2..]))
  }

  function Joined(data: string, others: Option<(string, string)>): Option<(string, string)> {
    match others
    case None => None
    case Some((body, after)) => Some((data + body, after))
  }

  predicate IsSpace(c: char) {
    c == ' ' || c == '\t'
  }

  function TrimLeft(s: string): string {
    if s != [] && IsSpace(s[0]) then TrimLeft(s[1..]) else s
  }

  function TrimRight(s: string): string {
    if s != [] && IsSpace(s[|s| - 1]) then TrimRight(s[..|s| - 1]) else s
  }

  /** `field-name ":" OWS field-value OWS` */
  function ParseField(line: string): Option<Field> {
    match SplitColon(line)
    case None => None
    case Some((name, value)) => if name == [] then None else Some((name, TrimRight(TrimLeft(value))))
  }

  function SplitColon(line: string): Option<(string, string)> {
    if line == [] then None
    else if line[0] == ':' then Some(("", line[1..]))
    else
      match SplitColon(line[1..])
      case None => None
      case Some((name, value)) => Some(([line[0]] + name, value))
  }

  function DecodeTrailers(s: string): Option<(seq<Field>, string)>
    decreases |s|
  {
    ReadLineShrinks(s);
    match ReadLine(s)
    case None => None
    case Some((line, rest)) =>
      if line == [] then Some(([], rest))
      else
        match ParseField(line)
        case None => None
        case Some(field) =>
          match DecodeTrailers(rest)
          case None => None
          case Some((fields, after)) => Some(([field] + fields, after))
  }

  datatype Message = Message(body: string, trailers: seq<Field>, rest: string)

  function Decode(s: string): Option<Message> {
    match DecodeChunks(s)
    case None => None
    case Some((body, rest)) =>
      match DecodeTrailers(rest)
      case None => None
      case Some((fields, after)) => Some(Message(body, fields, after))
  }

  // ----- round trip

  predicate GoodField(f: Field) {
    && f.0 != [] && ':' !in f.0 && '\r' !in f.0 && '\r' !in f.1
    && (f.1 != [] ==> !IsSpace(f.1[0]) && !IsSpace(f.1[|f.1| - 1]))
  }

  predicate GoodFields(fs: seq<Field>) {
    forall f :: f in fs ==> GoodField(f)
  }

  /** The widths cut the payload: all positive, and together no longer than what is left of it. */
  predicate Fits(widths: seq<int>, left: int) {
    left >= 0 && (widths != [] ==> widths[0] > 0 && Fits(widths[1..], left - widths[0]))
  }

  lemma {:induction false} ReadLineOf(line: string, rest: string)
    requires '\r' !in line
    ensures ReadLine(line + CRLF + rest) == Some((line, rest))
  {
    var s := line + CRLF + rest;
    if line == [] {
      assert s == CRLF + rest;
      assert s[2..] == rest;
    } else {
      ReadLineOf(line[1..], rest);
      assert s[1..] == line[1..] + CRLF + rest;
      assert s[0] == line[0] && line[0] in line;
      assert [line[0]] + line[1..] == line;
    }
  }

  lemma {:induction false} SizePartOf(line: string)
    requires ';' !in line
    ensures SizePart(line) == line
  {
    if line != [] {
      assert line[0] in line;
      SizePartOf(line[1..]);
    }
  }

  lemma ChunkThen(p: Piece, rest: string)
    ensures ChunkText(p) + rest == FormatHex(p.0) + CRLF + (p.1 + CRLF + rest)
  {
    Regroup(FormatHex(p.0) + CRLF, p.1, CRLF, rest);
  }

  /** Whatever follows it, `text` contributes exactly `data` to the decoded body. */
  ghost predicate DecodesTo(text: string, data: string) {
    forall rest :: DecodeChunks(text + rest) == Joined(data, DecodeChunks(rest))
  }

  /** A chunk of the announced size is decoded and the decoder goes on behind it. */
  lemma ExactChunk(p: Piece)
    requires p.0 == |p.1| > 0
    ensures DecodesTo(ChunkText(p), p.1)
  {
    forall rest ensures DecodeChunks(ChunkText(p) + rest) == Joined(p.1, DecodeChunks(rest)) {
      var line, behind := Hex(p.0), p.1 + CRLF + rest;
      ChunkThen(p, rest);
      HexIsClean(p.0);
      ReadLineOf(line, behind);
      SizePartOf(line);
      HexRoundTrip(p.0);
      assert behind[p.0..p.0 + 2] == CRLF;
      assert behind[p.0 + 2..] == rest;
      assert behind[..p.0] == p.1;
    }
  }

  lemma DecodesNothing()
    ensures DecodesTo([], [])
  {
    forall rest ensures DecodeChunks([] + rest) == Joined([], DecodeChunks(rest)) {
      assert [] + rest == rest;
      var r := DecodeChunks(rest);
      if r.Some? {
        assert [] + r.value.0 == r.value.0;
      }
    }
  }

  lemma DecodesBoth(t1: string, d1: string, t2: string, d2: string)
    requires DecodesTo(t1, d1) && DecodesTo(t2, d2)
    ensures DecodesTo(t1 + t2, d1 + d2)
  {
    forall rest ensures DecodeChunks((t1 + t2) + rest) == Joined(d1 + d2, DecodeChunks(rest)) {
      assert (t1 + t2) + rest == t1 + (t2 + rest);
      var r := DecodeChunks(rest);
      if r.Some? {
        assert d1 + (d2 + r.value.0) == d1 + d2 + r.value.0;
      }
    }
  }

  lemma DecodeLastChunk(rest: string)
    ensures DecodeChunks("0" + CRLF + rest) == Some(("", rest))
  {
    ReadLineOf("0", rest);
    SizePartOf("0");
    HexRoundTrip(0);
    assert Hex(0) == "0";
  }

  /** Every piece announces the length of its data. */
  predicate Exact(ps: seq<Piece>) {
    forall i :: 0 <= i < |ps| ==> ps[i].0 == |ps[i].1| > 0
  }

  function Data(ps: seq<Piece>): string {
    if ps == [] then [] else Data(ps[..|ps| - 1]) + ps[|ps| - 1].1
  }

  lemma {:induction false} ExactDecodes(ps: seq<Piece>)
    requires Exact(ps)
    ensures DecodesTo(Wire(ps), Data(ps))
    decreases |ps|
  {
    if ps == [] {
      DecodesNothing();
    } else {
      var n := |ps| - 1;
      ExactDecodes(ps[..n]);
      ExactChunk(ps[n]);
      DecodesBoth(Wire(ps[..n]), Data(ps[..n]), ChunkText(ps[n]), ps[n].1);
    }
  }

  lemma {:induction false} DataConcat(a: seq<Piece>, b: seq<Piece>)
    ensures Data(a + b) == Data(a) + Data(b)
    decreases |b|
  {
    if b == [] {
      assert a + b == a;
    } else {
      var n := |b| - 1;
      assert (a + b)[..|a + b| - 1] == a + b[..n];
      DataConcat(a, b[..n]);
      assert Data(a) + (Data(b[..n]) + b[n].1) == Data(a) + Data(b[..n]) + b[n].1;
    }
  }

  lemma DataFirst(p: Piece, others: seq<Piece>)
    ensures Data([p] + others) == p.1 + Data(others)
  {
    DataConcat([p], others);
    assert [p][..0] == [] && Data([]) + p.1 == p.1;
  }

  /** One exact piece in front of exact pieces. */
  lemma ExactFirst(payload: string, pointer: nat, next: nat, others: seq<Piece>)
    requires pointer < next <= |payload| && Exact(others) && Data(others) == payload[next..]
    ensures var ps := [(next - pointer, payload[pointer..next])] + others;
      Exact(ps) && Data(ps) == payload[pointer..]
  {
    var p: Piece := (next - pointer, payload[pointer..next]);
    DataFirst(p, others);
    hide Data;
    assert payload[pointer..next] + payload[next..] == payload[pointer..];
    forall i | 0 <= i < |[p] + others| ensures var q := ([p] + others)[i]; q.0 == |q.1| > 0 {
      if i > 0 {
        assert ([p] + others)[i] == others[i - 1];
      }
    }
  }

  /** Fitting widths, with the chunk for what they leave over, cut the payload from `pointer` on into
      chunks of the announced lengths. */
  lemma {:induction false} FittingPieces(widths: seq<int>, payload: string, pointer: nat)
    requires pointer <= |payload| && Fits(widths, |payload| - pointer)
    ensures Exact(Pieces(widths, payload, pointer))
    ensures Data(Pieces(widths, payload, pointer)) == payload[pointer..]
    decreases |widths|
  {
    if widths != [] {
      var next := pointer + widths[0];
      hide Data, Exact;
      FittingPieces(widths[1..], payload, next);
      ExactFirst(payload, pointer, next, Pieces(widths[1..], payload, next));
    } else if |payload| > pointer {
      ExactFirst(payload, pointer, |payload|, []);
      var piece: Piece := (|payload| - pointer, payload[pointer..|payload|]);
      assert [piece] + [] == [piece] == Pieces(widths, payload, pointer);
    } else {
      assert payload[pointer..] == [];
    }
  }

  lemma {:induction false} SplitColonOf(name: string, value: string)
    requires ':' !in name
    ensures SplitColon(name + ":" + value) == Some((name, value))
  {
    var line := name + ":" + value;
    if name == [] {
      assert line[1..] == value;
    } else {
      SplitColonOf(name[1..], value);
      assert line[1..] == name[1..] + ":" + value;
      assert line[0] == name[0] && name[0] in name;
      assert [name[0]] + name[1..] == name;
    }
  }

  lemma ParseFieldOf(f: Field)
    requires GoodField(f)
    ensures ParseField(f.0 + ": " + f.1) == Some(f)
  {
    assert f.0 + ": " + f.1 == f.0 + ":" + (" " + f.1);
    SplitColonOf(f.0, " " + f.1);
    assert (" " + f.1)[1..] == f.1;
    assert TrimLeft(" " + f.1) == TrimLeft(f.1) == f.1;
  }

  lemma {:induction false} TrailersRoundTrip(fs: seq<Field>)
    requires GoodFields(fs)
    ensures DecodeTrailers(FieldLines(fs) + CRLF) == Some((fs, ""))
    decreases |fs|
  {
    if fs == [] {
      ReadLineOf("", "");
      assert FieldLines(fs) + CRLF == "" + CRLF + "";
    } else {
      var f, others := fs[0], fs[1..];
      var line, rest := f.0 + ": " + f.1, FieldLines(others) + CRLF;
      assert f in fs;
      assert FieldLines(fs) + CRLF == line + CRLF + rest;
      ReadLineOf(line, rest);
      ParseFieldOf(f);
      TrailersRoundTrip(others);
      assert [f] + others == fs;
    }
  }

  lemma FittingRoundTrip(widths: seq<int>, payload: string, trailers: seq<Field>)
    requires Fits(widths, |payload|) && GoodFields(trailers)
    ensures Decode(Output(widths, payload, trailers)) == Some(Message(payload, trailers, ""))
  {
    var rest := FieldLines(trailers) + CRLF;
    assert Ending(trailers) == "0" + CRLF + rest;
    DecodeLastChunk(rest);
    FittingPieces(widths, payload, 0);
    ExactDecodes(Pieces(widths, payload, 0));
    TrailersRoundTrip(trailers);
    assert payload[0..] + "" == payload;
  }

  // ----- widths that do not fit

  /** The decoder fails, or finds a body that is not `left` characters long, or stops early enough to
      take an empty line for the end of the message and leave something behind it. */
  predicate Misread(r: Option<(string, string)>, left: nat) {
    r.Some? ==> |r.value.0| != left || (CRLF <= r.value.1 && |r.value.1| > 2)
  }

  ghost predicate MisreadAfter(text: string, left: nat) {
    forall rest :: rest != [] ==> Misread(DecodeChunks(text + rest), left)
  }

  /** A width that is negative, zero, or larger than what is left of the payload. */
  lemma MisfittingPiece(p: Piece, left: nat)
    requires !(0 < p.0 <= left) && (p.0 == 0 ==> p.1 == [])
    ensures MisreadAfter(ChunkText(p), left)
  {
    forall rest | rest != [] ensures Misread(DecodeChunks(ChunkText(p) + rest), left) {
      var line, behind := FormatHex(p.0), p.1 + CRLF + rest;
      ChunkThen(p, rest);
      HexIsClean(if p.0 < 0 then -p.0 else p.0);
      ReadLineOf(line, behind);
      SizePartOf(line);
      if p.0 < 0 {
        NotHex(Hex(-p.0));
      } else {
        HexRoundTrip(p.0);
        assert p.0 == 0 ==> behind == CRLF + rest;
      }
    }
  }

  lemma MisreadEarlier(t1: string, t2: string, left: nat)
    requires MisreadAfter(t1, left)
    ensures MisreadAfter(t1 + t2, left)
  {
    forall rest | rest != [] ensures Misread(DecodeChunks((t1 + t2) + rest), left) {
      assert (t1 + t2) + rest == t1 + (t2 + rest);
      assert t2 + rest != [];
    }
  }

  lemma MisreadLater(t1: string, data: string, t2: string, left: nat)
    requires DecodesTo(t1, data) && MisreadAfter(t2, left)
    ensures MisreadAfter(t1 + t2, |data| + left)
  {
    forall rest | rest != [] ensures Misread(DecodeChunks((t1 + t2) + rest), |data| + left) {
      assert (t1 + t2) + rest == t1 + (t2 + rest);
    }
  }

  lemma {:induction false} NotHex(digits: string)
    ensures ParseHex("-" + digits) == None
    decreases |digits|
  {
    var s := "-" + digits;
    if digits != [] {
      assert s[..|s| - 1] == "-" + digits[..|digits| - 1];
      NotHex(digits[..|digits| - 1]);
    }
  }

  /** Exact pieces are followed by one that does not fit what is left. */
  predicate BadAt(ps: seq<Piece>, k: nat, left: int) {
    && k < |ps| && Exact(ps[..k])
    && |Data(ps[..k])| <= left
    && !(0 < ps[k].0 <= left - |Data(ps[..k])|) && (ps[k].0 == 0 ==> ps[k].1 == [])
  }

  lemma {:induction false} MisfittingPieces(widths: seq<int>, payload: string, pointer: nat) returns (k: nat)
    requires pointer <= |payload| && !Fits(widths, |payload| - pointer)
    ensures BadAt(Pieces(widths, payload, pointer), k, |payload| - pointer)
    decreases |widths|
  {
    var w, next := widths[0], pointer + widths[0];
    var ps := Pieces(widths, payload, pointer);
    if 0 < w <= |payload| - pointer {
      k := MisfittingPieces(widths[1..], payload, next);
      var others := Pieces(widths[1..], payload, next);
      assert ps[..k + 1] == [ps[0]] + others[..k];
      DataFirst(ps[0], others[..k]);
      k := k + 1;
    } else {
      k := 0;
      assert Data(ps[..0]) == [];
    }
  }

  lemma {:induction false} WireConcat(a: seq<Piece>, b: seq<Piece>)
    ensures exists tail :: Wire(a + b) == Wire(a) + tail
    decreases |b|
  {
    if b == [] {
      assert a + b == a;
      assert Wire(a + b) == Wire(a) + [];
    } else {
      var n := |b| - 1;
      assert (a + b)[..|a + b| - 1] == a + b[..n];
      WireConcat(a, b[..n]);
      var tail :| Wire(a + b[..n]) == Wire(a) + tail;
      Assoc(Wire(a), tail, ChunkText(b[n]));
    }
  }

  lemma BadPieceMisread(good: seq<Piece>, bad: Piece, left: nat)
    requires Exact(good) && |Data(good)| <= left
    requires !(0 < bad.0 <= left - |Data(good)|) && (bad.0 == 0 ==> bad.1 == [])
    ensures MisreadAfter(Wire(good + [bad]), left)
  {
    ExactDecodes(good);
    MisfittingPiece(bad, left - |Data(good)|);
    MisreadLater(Wire(good), Data(good), ChunkText(bad), left - |Data(good)|);
    WireSnoc(good, bad);
  }

  lemma MisfittingWire(ps: seq<Piece>, k: nat, left: nat)
    requires BadAt(ps, k, left)
    ensures MisreadAfter(Wire(ps), left)
  {
    var first, others := ps[..k] + [ps[k]], ps[k + 1..];
    assert ps == first + others;
    BadPieceMisread(ps[..k], ps[k], left);
    MisreadWithMore(first, others, left);
  }

  lemma MisreadWithMore(first: seq<Piece>, others: seq<Piece>, left: nat)
    requires MisreadAfter(Wire(first), left)
    ensures MisreadAfter(Wire(first + others), left)
  {
    WireConcat(first, others);
    var tail :| Wire(first + others) == Wire(first) + tail;
    MisreadEarlier(Wire(first), tail, left);
  }

  /** The receiver gets exactly the payload and the trailers, with nothing left over, if and only if the
      configured widths are all positive and together no longer than the payload. */
  lemma RoundTripIffFits(widths: seq<int>, payload: string, trailers: seq<Field>)
    requires GoodFields(trailers)
    ensures Decode(Output(widths, payload, trailers)) == Some(Message(payload, trailers, ""))
       <==> Fits(widths, |payload|)
  {
    if Fits(widths, |payload|) {
      FittingRoundTrip(widths, payload, trailers);
    } else {
      var output := Output(widths, payload, trailers);
      var k := MisfittingPieces(widths, payload, 0);
      MisfittingWire(Pieces(widths, payload, 0), k, |payload|);
      assert Ending(trailers) != [];
      var chunks := DecodeChunks(output);
      if chunks.Some? && |chunks.value.0| == |payload| {
        var behind := chunks.value.1[2..];
        assert chunks.value.1 == "" + CRLF + behind;
        ReadLineOf("", behind);
      }
    }
  }

  /** One width, one larger than the payload, spoils every message; so does a width of zero. */
  lemma WidthsThatDoNotFit(payload: string, trailers: seq<Field>)
    requires GoodFields(trailers)
    ensures Decode(Output([|payload| + 1], payload, trailers)) != Some(Message(payload, trailers, ""))
    ensures Decode(Output([0], payload, trailers)) != Some(Message(payload, trailers, ""))
  {
    RoundTripIffFits([|payload| + 1], payload, trailers);
    RoundTripIffFits([0], payload, trailers);
  }
}
