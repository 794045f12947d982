/** Well-formed PEM text, and what reading it yields. */
module PemText {
  import opened Wrappers
  import opened Strings
  import opened Pem

  /** A block: its type, what else is on the BEGIN line, its body, and the white space that
      follows it. */
  datatype Placed = Placed(typ: string, tail: string, body: string, gap: string)

  /** White space, then any number of blocks. */
  datatype Piece = Piece(lead: string, blocks: seq<Placed>)

  /** The rest of an END line's label, followed by `t`. */
  function Label(typ: string, t: string): string {
    typ + DASHES + t
  }

  /** A BEGIN line after its keyword. */
  function BeginLine(b: Placed): string {
    b.typ + DASHES + b.tail
  }

  /** Body and END line, followed by `t`. */
  function BodyText(b: Placed, t: string): string {
    b.body + (("\n" + END) + Label(b.typ, t))
  }

  /** The block, followed by `t`. */
  function BlockText(b: Placed, t: string): string {
    BEGIN + (BeginLine(b) + ("\n" + BodyText(b, t)))
  }

  function TextOf(bs: seq<Placed>): string {
    if bs == [] then "" else BlockText(bs[0], bs[0].gap + TextOf(bs[1..]))
  }

  function Text(p: Piece): string {
    p.lead + TextOf(p.blocks)
  }

  /** The rest of the END line is blank, as the decoder insists. */
  predicate GapOk(gap: string) {
    White(gap) && LineOf(gap) == ""
  }

  /** Blanks and perhaps a carriage return. */
  predicate TailOk(tail: string) {
    '\n' !in tail && TrimBlanks(DropCR(tail)) == ""
  }

  /** A complete block, whatever its contents. */
  predicate Framed(x: Codec, b: Placed) {
    && '\n' !in b.typ && TailOk(b.tail)
    && '-' !in b.body
    && x.unarmor(b.body).Some?
    && GapOk(b.gap)
  }

  predicate AllFramed(x: Codec, bs: seq<Placed>) {
    && (forall i | 0 <= i < |bs| :: Framed(x, bs[i]))
    && (forall i | 0 <= i < |bs| - 1 :: '\n' in bs[i].gap)
  }

  /** A block that holds a certificate. */
  predicate BlockOk(x: Codec, b: Placed) {
    Framed(x, b) && x.x509(x.unarmor(b.body).value).Some?
  }

  predicate BlocksOk(x: Codec, bs: seq<Placed>) {
    && (forall i | 0 <= i < |bs| :: BlockOk(x, bs[i]))
    && (forall i | 0 <= i < |bs| - 1 :: '\n' in bs[i].gap)
  }

  predicate WellFormed(x: Codec, p: Piece) {
    White(p.lead) && BlocksOk(x, p.blocks)
  }

  function CertOf(x: Codec, b: Placed): Certificate
    requires BlockOk(x, b)
  {
    x.x509(x.unarmor(b.body).value).value
  }

  function Certs(x: Codec, bs: seq<Placed>): (r: seq<Certificate>)
    requires BlocksOk(x, bs)
    ensures |r| == |bs|
  {
    if bs == [] then [] else [CertOf(x, bs[0])] + Certs(x, bs[1..])
  }

  // ---------------------------------------------------------------- concatenations

  lemma Dropped(a: string, b: string)
    ensures (a + b)[|a|..] == b && (a + b)[..|a|] == a
  {
  }

  lemma Assoc(a: string, b: string, c: string)
    ensures a + (b + c) == (a + b) + c
  {
  }

  lemma LabelAppend(typ: string, t: string, u: string)
    ensures Label(typ, t + u) == Label(typ, t) + u
  {
    Assoc(typ + DASHES, t, u);
  }

  lemma BodyTextAppend(b: Placed, t: string, u: string)
    ensures BodyText(b, t + u) == BodyText(b, t) + u
  {
    var end := "\n" + END;
    LabelAppend(b.typ, t, u);
    Assoc(end, Label(b.typ, t), u);
    Assoc(b.body, end + Label(b.typ, t), u);
  }

  lemma BlockTextAppend(b: Placed, t: string, u: string)
    ensures BlockText(b, t + u) == BlockText(b, t) + u
  {
    BodyTextAppend(b, t, u);
    var rest := "\n" + BodyText(b, t);
    Assoc("\n", BodyText(b, t), u);
    Assoc(BeginLine(b), rest, u);
    Assoc(BEGIN, BeginLine(b) + rest, u);
  }

  lemma {:induction false} TextAppend(a: seq<Placed>, b: seq<Placed>)
    ensures TextOf(a + b) == TextOf(a) + TextOf(b)
  {
    if a == [] {
      assert a + b == b;
    } else {
      assert (a + b)[1..] == a[1..] + b;
      TextAppend(a[1..], b);
      Assoc(a[0].gap, TextOf(a[1..]), TextOf(b));
      BlockTextAppend(a[0], a[0].gap + TextOf(a[1..]), TextOf(b));
    }
  }

  // ---------------------------------------------------------------- reading a line

  lemma {:induction false} FoundAfter(s: string, t: string, sub: string)
    requires sub != "" && sub <= t
    requires forall i | 0 <= i < |s| :: !(sub <= (s + t)[i..])
    ensures IndexOf(s + t, sub) == |s|
    decreases |s|
  {
    if s == "" {
      assert s + t == t;
    } else {
      assert (s + t)[0..] == s + t;
      var u := s[1..] + t;
      assert (s + t)[1..] == u;
      forall i | 0 <= i < |s[1..]|
        ensures !(sub <= u[i..])
      {
        assert u[i..] == (s + t)[i + 1..];
      }
      FoundAfter(s[1..], t, sub);
    }
  }

  lemma LineBreakIndex(s: string, t: string)
    requires '\n' !in s
    ensures IndexOf(s + ("\n" + t), "\n") == |s|
  {
    var u := "\n" + t;
    forall i | 0 <= i < |s|
      ensures !("\n" <= (s + u)[i..])
    {
      assert (s + u)[i..][0] == s[i];
    }
    FoundAfter(s, u, "\n");
  }

  lemma LineBreakAt(s: string, t: string)
    requires '\n' !in s
    ensures AfterLine(s + ("\n" + t)) == t
    ensures LineOf(s + ("\n" + t)) == TrimBlanks(DropCR(s))
  {
    LineBreakIndex(s, t);
    Dropped(s, "\n" + t);
    Assoc(s, "\n", t);
    Dropped(s + "\n", t);
  }

  /** The text up to the first line break, and what follows it. */
  lemma SplitLine(s: string) returns (a: string, b: string)
    requires '\n' in s
    ensures s == a + ("\n" + b) && '\n' !in a
  {
    if s[0] == '\n' {
      a, b := "", s[1..];
    } else {
      a, b := SplitLine(s[1..]);
      a := [s[0]] + a;
    }
  }

  lemma NoBreak(s: string)
    requires '\n' !in s
    ensures IndexOf(s, "\n") < 0
  {
    if IndexOf(s, "\n") >= 0 {
      ContainsChars(s, "\n", '\n');
    }
  }

  lemma GapWithBreak(gap: string, t: string) returns (w: string)
    requires White(gap) && '\n' in gap
    ensures White(w) && AfterLine(gap + t) == w + t
    ensures LineOf(gap + t) == LineOf(gap)
  {
    hide LineOf, AfterLine, IsSpace;
    var a, b := SplitLine(gap);
    LineBreakAt(a, b);
    LineBreakAt(a, b + t);
    Assoc("\n", b, t);
    Assoc(a, "\n" + b, t);
    w := b;
    assert forall i | 0 <= i < |b| :: b[i] == gap[|a| + 1 + i];
  }

  lemma GapWithoutBreak(gap: string, t: string)
    requires GapOk(gap) && '\n' !in gap
    ensures LineOf(gap + ("\n" + t)) == ""
  {
    NoBreak(gap);
    LineBreakAt(gap, t);
  }

  lemma GapExtend(gap: string, t: string)
    requires GapOk(gap)
    ensures LineOf(gap + ("\n" + t)) == ""
    ensures '\n' in gap ==> LineOf(gap + t) == ""
  {
    hide LineOf, White;
    if '\n' in gap {
      var _ := GapWithBreak(gap, t);
      var _ := GapWithBreak(gap, "\n" + t);
    } else {
      GapWithoutBreak(gap, t);
    }
  }

  // --------------------------------------------------------------- reading a block

  lemma EndLineAt(body: string, end: string, t: string)
    requires '-' !in body && |end| > 1 && end[0] == '\n' && end[1] == '-'
    ensures IndexOf(body + (end + t), end) == |body|
  {
    var u := end + t;
    var s := body + u;
    forall i | 0 <= i < |body|
      ensures !(end <= s[i..])
    {
      assert s[i..][1] == s[i + 1] != '-';
    }
    FoundAfter(body, u, end);
  }

  lemma BodyRead(x: Codec, b: Placed, t: string)
    requires Framed(x, b) && LineOf(t) == ""
    ensures BodyAt(x, b.typ, BodyText(b, t)) == Some(Decoded(x.unarmor(b.body).value, AfterLine(t)))
  {
    var end, close := "\n" + END, Label(b.typ, t);
    var rest := b.body + (end + close);
    assert rest[0] != '-';
    assert !(END <= rest);
    EndLineAt(b.body, end, close);
    Dropped(b.body, end + close);
    Assoc(b.body, end, close);
    Dropped(b.body + end, close);
    Dropped(b.typ + DASHES, t);
  }

  lemma {:induction false} TrimBlanksAfter(a: string, t: string)
    requires a != "" && !Blank(a[|a| - 1]) && TrimBlanks(t) == ""
    ensures TrimBlanks(a + t) == a
    decreases |t|
  {
    if t == "" {
      assert a + t == a;
    } else {
      assert (a + t)[..|a + t| - 1] == a + t[..|t| - 1];
      TrimBlanksAfter(a, t[..|t| - 1]);
    }
  }

  /** What the decoder sees of a BEGIN line: blanks and a carriage return are dropped. */
  lemma BeginLineRead(b: Placed)
    requires '\n' !in b.typ && TailOk(b.tail)
    ensures '\n' !in BeginLine(b) && TrimBlanks(DropCR(BeginLine(b))) == b.typ + DASHES
  {
    var line := b.typ + DASHES;
    assert line[|line| - 1] == '-';
    assert DropCR(BeginLine(b)) == line + DropCR(b.tail);
    TrimBlanksAfter(line, DropCR(b.tail));
  }

  lemma {:induction false} TrimAllBlanks(s: string)
    requires forall i | 0 <= i < |s| :: Blank(s[i])
    ensures TrimBlanks(s) == ""
    decreases |s|
  {
    if s == "" {
    } else {
      TrimAllBlanks(s[..|s| - 1]);
    }
  }

  lemma BlanksAndCR(blanks: string)
    requires forall i | 0 <= i < |blanks| :: Blank(blanks[i])
    ensures TrimBlanks(blanks) == "" && DropCR(blanks) == blanks && DropCR(blanks + "\r") == blanks
    ensures '\n' !in blanks + "\r" && White(blanks) && White(blanks + "\r")
  {
    hide TrimBlanks, White;
    TrimAllBlanks(blanks);
    var line := blanks + "\r";
    assert line[|line| - 1] == '\r' && line[..|line| - 1] == blanks;
    hide Blank, DropCR;
    BlankLine(blanks);
    BlankLine(line);
  }

  lemma BlankLine(line: string)
    requires forall i | 0 <= i < |line| :: Blank(line[i]) || line[i] == '\r'
    ensures '\n' !in line && White(line)
  {
  }

  lemma WhiteLine(line: string, w: string)
    requires White(line) && White(w) && '\n' !in line && TrimBlanks(DropCR(line)) == ""
    ensures GapOk(line + ("\n" + w))
  {
    LineBreakAt(line, w);
    hide LineOf, DropCR, TrimBlanks;
  }

  /** A line may end in blanks, and in LF as well as CRLF, behind BEGIN and behind END. */
  lemma LineEnds(blanks: string, w: string)
    requires White(w) && forall i | 0 <= i < |blanks| :: Blank(blanks[i])
    ensures TailOk(blanks) && TailOk(blanks + "\r")
    ensures GapOk(blanks) && GapOk(blanks + ("\n" + w)) && GapOk((blanks + "\r") + ("\n" + w))
  {
    BlanksAndCR(blanks);
    NoBreak(blanks);
    hide White, DropCR, TrimBlanks;
    WhiteLine(blanks, w);
    WhiteLine(blanks + "\r", w);
  }

  lemma BlockRead(x: Codec, b: Placed, t: string)
    requires Framed(x, b) && LineOf(t) == ""
    ensures Decode(x, BlockText(b, t)) == Some(Decoded(x.unarmor(b.body).value, AfterLine(t)))
  {
    var line, rest := b.typ + DASHES, BodyText(b, t);
    Dropped(BEGIN, BeginLine(b) + ("\n" + rest));
    BeginLineRead(b);
    LineBreakAt(BeginLine(b), rest);
    assert LineOf(BeginLine(b) + ("\n" + rest)) == line;
    Dropped(b.typ, DASHES);
    BodyRead(x, b, t);
    assert BlockAt(x, BlockText(b, t)) == BodyAt(x, b.typ, rest);
  }

  // --------------------------------------------------------------- reading a chain

  function DropLastGap(bs: seq<Placed>): (r: seq<Placed>)
    requires bs != []
    ensures |r| == |bs|
  {
    bs[|bs| - 1 := bs[|bs| - 1].(gap := "")]
  }

  lemma LabelEnds(typ: string)
    ensures Label(typ, "") != "" && Label(typ, "")[|Label(typ, "")| - 1] == '-'
  {
    assert Label(typ, "") == typ + DASHES;
  }

  lemma BlockEnds(b: Placed, t: string)
    requires t != "" ==> t[|t| - 1] == '-'
    ensures var s := BlockText(b, t); s != "" && s[0] == '-' && s[|s| - 1] == '-'
  {
    var s := BlockText(b, t);
    if t == "" {
      LabelEnds(b.typ);
    } else {
      Assoc("", t, "");
    }
  }

  lemma {:induction false} TextEnds(bs: seq<Placed>)
    requires bs != [] && bs[|bs| - 1].gap == ""
    ensures TextOf(bs) != "" && TextOf(bs)[0] == '-' && TextOf(bs)[|TextOf(bs)| - 1] == '-'
  {
    if |bs| > 1 {
      TextEnds(bs[1..]);
    } else {
      assert bs[1..] == [];
    }
    BlockEnds(bs[0], bs[0].gap + TextOf(bs[1..]));
  }

  lemma {:induction false} LastGapOut(bs: seq<Placed>)
    requires bs != []
    ensures TextOf(bs) == TextOf(DropLastGap(bs)) + bs[|bs| - 1].gap
  {
    var last := |bs| - 1;
    var b, c := bs[last], DropLastGap(bs)[last];
    assert bs == bs[..last] + [b];
    assert DropLastGap(bs) == bs[..last] + [c];
    TextAppend(bs[..last], [b]);
    TextAppend(bs[..last], [c]);
    assert [b][1..] == [] && [c][1..] == [];
    assert b.gap + "" == "" + b.gap == b.gap;
    BlockTextAppend(b, "", b.gap);
    Assoc(TextOf(bs[..last]), TextOf([c]), b.gap);
  }

  lemma TrimText(w: string, bs: seq<Placed>)
    requires White(w) && bs != [] && White(bs[|bs| - 1].gap)
    ensures TrimSpace(w + TextOf(bs)) == TextOf(DropLastGap(bs))
  {
    hide TrimSpace, TextOf;
    LastGapOut(bs);
    TextEnds(DropLastGap(bs));
    Assoc(w, TextOf(DropLastGap(bs)), bs[|bs| - 1].gap);
    TrimSpaceWhite(w, TextOf(DropLastGap(bs)), bs[|bs| - 1].gap);
  }

  /** The first block is read off, and what is left, trimmed, is the other blocks. */
  lemma FirstBlockRead(x: Codec, bs: seq<Placed>)
    requires AllFramed(x, bs) && bs != [] && bs[|bs| - 1].gap == ""
    ensures var d := Decode(x, TextOf(bs));
            && d.Some? && d.value.der == x.unarmor(bs[0].body).value
            && TrimSpace(d.value.rest) == TextOf(bs[1..])
  {
    hide Decode, LineOf, AfterLine, TrimSpace, White, BlockText;
    var b, more := bs[0], bs[1..];
    var t := b.gap + TextOf(more);
    if more == [] {
      assert t == "";
      EmptyLine();
      BlockRead(x, b, t);
    } else {
      GapExtend(b.gap, TextOf(more));
      BlockRead(x, b, t);
      var w := GapWithBreak(b.gap, TextOf(more));
      TrimText(w, more);
      assert DropLastGap(more) == more;
    }
  }

  lemma RestOk(x: Codec, bs: seq<Placed>)
    requires BlocksOk(x, bs) && bs != []
    ensures AllFramed(x, bs) && BlockOk(x, bs[0]) && BlocksOk(x, bs[1..])
    ensures |bs| > 1 ==> bs[1..][|bs| - 2] == bs[|bs| - 1]
  {
    hide Framed;
  }

  lemma EmptyLine()
    ensures LineOf("") == "" && AfterLine("") == "" && TrimSpace("") == ""
  {
  }

  lemma {:induction false} ParseText(x: Codec, bs: seq<Placed>)
    requires BlocksOk(x, bs)
    requires bs != [] ==> bs[|bs| - 1].gap == ""
    ensures ParseFrom(x, TextOf(bs)) == Ok(Certs(x, bs))
    decreases |bs|
  {
    if bs == [] {
    } else {
      hide Decode, TrimSpace, TextOf, ParseFrom, BlockOk;
      TextEnds(bs);
      RestOk(x, bs);
      FirstBlockRead(x, bs);
      ParseText(x, bs[1..]);
      ParseStep(x, TextOf(bs));
    }
  }

  /** One round of the reading loop. */
  lemma ParseStep(x: Codec, rest: string)
    requires rest != "" && Decode(x, rest).Some? && x.x509(Decode(x, rest).value.der).Some?
    ensures var d := Decode(x, rest).value;
            ParseFrom(x, rest) == Prepend(x.x509(d.der).value, ParseFrom(x, TrimSpace(d.rest)))
  {
  }

  lemma GapDropped(x: Codec, b: Placed)
    requires BlockOk(x, b)
    ensures BlockOk(x, b.(gap := "")) && CertOf(x, b.(gap := "")) == CertOf(x, b)
  {
    NoBreak("");
  }

  lemma {:induction false} CertsDropLastGap(x: Codec, bs: seq<Placed>)
    requires BlocksOk(x, bs) && bs != []
    ensures BlocksOk(x, DropLastGap(bs)) && Certs(x, DropLastGap(bs)) == Certs(x, bs)
  {
    hide BlockOk, CertOf;
    GapDropped(x, bs[|bs| - 1]);
    if |bs| > 1 {
      CertsDropLastGap(x, bs[1..]);
      assert DropLastGap(bs)[1..] == DropLastGap(bs[1..]);
    } else {
      assert DropLastGap(bs)[1..] == [];
      assert bs[1..] == [];
    }
  }

  /** Reading a well-formed text yields its certificates, in order. */
  lemma ParsePiece(x: Codec, p: Piece)
    requires WellFormed(x, p)
    ensures ParseAll(x, Text(p)) == Ok(Certs(x, p.blocks))
  {
    if p.blocks == [] {
      assert p.lead + "" == p.lead;
      TrimSpaceAllWhite(p.lead);
    } else {
      TrimText(p.lead, p.blocks);
      CertsDropLastGap(x, p.blocks);
      ParseText(x, DropLastGap(p.blocks));
    }
  }

  // ---------------------------------------------------------------------- refusals

  lemma {:induction false} FirstBadBlock(x: Codec, bs: seq<Placed>, k: nat)
    requires AllFramed(x, bs) && k < |bs| && bs[|bs| - 1].gap == ""
    requires x.x509(x.unarmor(bs[k].body).value).None?
    ensures ParseFrom(x, TextOf(bs)) == Err(NotACertificate)
    decreases |bs|
  {
    hide Decode, TrimSpace, TextOf;
    TextEnds(bs);
    FirstBlockRead(x, bs);
    if x.x509(x.unarmor(bs[0].body).value).None? {
    } else {
      hide Framed;
      assert AllFramed(x, bs[1..]) && bs[1..][k - 1] == bs[k];
      assert bs[1..][|bs| - 2] == bs[|bs| - 1];
      FirstBadBlock(x, bs[1..], k - 1);
    }
  }

  /** Text made of complete blocks is refused as soon as one of them is no certificate,
      wherever it stands: it is never passed over. */
  lemma NonCertificateRefused(x: Codec, p: Piece, k: nat)
    requires White(p.lead) && AllFramed(x, p.blocks)
    requires k < |p.blocks| && x.x509(x.unarmor(p.blocks[k].body).value).None?
    ensures ParseAll(x, Text(p)) == Err(NotACertificate)
  {
    hide ParseFrom, TextOf, TrimSpace;
    var bs := p.blocks;
    FramedDropLastGap(x, bs);
    TrimText(p.lead, bs);
    hide AllFramed, DropLastGap;
    FirstBadBlock(x, DropLastGap(bs), k);
  }

  lemma FramedDropLastGap(x: Codec, bs: seq<Placed>)
    requires AllFramed(x, bs) && bs != []
    ensures AllFramed(x, DropLastGap(bs)) && DropLastGap(bs)[|bs| - 1].gap == ""
    ensures forall i | 0 <= i < |bs| :: DropLastGap(bs)[i].body == bs[i].body
    ensures White(bs[|bs| - 1].gap)
  {
    NoBreak("");
    hide IndexOf, TailOk;
  }

  /** Text in front of a block is passed over, line by line. */
  lemma PreambleSkipped(x: Codec, line: string, data: string)
    requires '\n' !in line && !(BEGIN <= line)
    ensures Decode(x, line + ("\n" + data)) == Decode(x, data)
  {
    hide BodyAt, LineOf, IndexOf;
    LineBreakIndex(line, data);
    LineBreakAt(line, data);
    NotBegin(line, data);
  }

  lemma NotBegin(line: string, data: string)
    requires !(BEGIN <= line)
    ensures !(BEGIN <= line + ("\n" + data))
  {
    var all := line + ("\n" + data);
    if |line| < |BEGIN| {
      assert all[|line|] == '\n' && '\n' !in BEGIN;
      assert BEGIN[|line|] in BEGIN;
    } else {
      assert all[..|BEGIN|] == line[..|BEGIN|];
    }
  }

  /** A block whose END line has another label, or anything but blanks after it, is not a
      block. */
  lemma EndLineRefused(x: Codec, b: Placed, close: string)
    requires '-' !in b.body
    requires !(b.typ + DASHES <= close) || LineOf(close[|b.typ| + |DASHES|..]) != ""
    ensures BodyAt(x, b.typ, b.body + (("\n" + END) + close)).None?
  {
    var end := "\n" + END;
    var rest := b.body + (end + close);
    assert rest[0] != '-';
    assert !(END <= rest);
    EndLineAt(b.body, end, close);
    Assoc(b.body, end, close);
    Dropped(b.body + end, close);
  }

  lemma TailLacks(data: string, n: nat, sub: string)
    requires n <= |data| && !Contains(data, sub)
    ensures !Contains(data[n..], sub)
  {
    var j := IndexOf(data[n..], sub);
    if j >= 0 {
      assert data[n + j..n + j + |sub|] == data[n..][j..j + |sub|];
      ContainsAt(data, sub, n + j);
    }
  }

  lemma {:induction false} NoBlockDecoded(x: Codec, data: string)
    requires !Contains(data, BEGIN)
    ensures Decode(x, data).None?
    decreases |data|
  {
    if data == "" {
    } else {
      hide BodyAt, LineOf;
      assert !(BEGIN <= data);
      var i := IndexOf(data, "\n");
      if i >= 0 {
        TailLacks(data, i + 1, BEGIN);
        NoBlockDecoded(x, AfterLine(data));
      }
    }
  }

  /** Text that is not blank and has no BEGIN line is refused; blank text has no certificates. */
  lemma NoBlockRefused(x: Codec, text: string)
    requires !Contains(TrimSpace(text), BEGIN)
    ensures ParseAll(x, text) == if TrimSpace(text) == "" then Ok([]) else Err(NotPem)
  {
    hide TrimSpace, Decode;
    NoBlockDecoded(x, TrimSpace(text));
  }
}
