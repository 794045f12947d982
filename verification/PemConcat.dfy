/** Concatenating certificate files and reading the result back
    (concatCertChain in tools/tuf/pkg/repo/repo.go). */
module PemConcat {
  import opened Wrappers
  import opened Strings
  import opened Pem
  import opened PemText

  function Lines(pieces: seq<string>): string {
    if pieces == [] then "" else pieces[0] + ("\n" + Lines(pieces[1..]))
  }

  function Concatenated(leaf: string, intermediates: seq<string>, root: string): string {
    (if |leaf| > 0 then leaf + "\n" else "") + Lines(intermediates) + root
  }

  lemma {:induction false} LinesAppend(a: seq<string>, s: string)
    ensures Lines(a + [s]) == Lines(a) + s + "\n"
  {
    if a == [] {
      assert [s][1..] == [];
      assert Lines([s]) == s + ("\n" + "");
    } else {
      assert (a + [s])[1..] == a[1..] + [s];
      LinesAppend(a[1..], s);
      var ls := Lines(a[1..]);
      Assoc(ls, s, "\n");
      Assoc("\n", ls, s + "\n");
      Assoc(a[0], "\n" + ls, s + "\n");
      Assoc(Lines(a), s, "\n");
    }
  }

  method ConcatCertChain(leaf: string, intermediates: seq<string>, root: string) returns (result: string)
    ensures result == Concatenated(leaf, intermediates, root)
  {
    result := "";
    if |leaf| > 0 {
      result := result + leaf;
      result := result + "\n";
    }
    ghost var start := result;
    for i := 0 to |intermediates|
      invariant result == start + Lines(intermediates[..i])
    {
      assert intermediates[..i + 1] == intermediates[..i] + [intermediates[i]];
      LinesAppend(intermediates[..i], intermediates[i]);
      result := result + intermediates[i];
      result := result + "\n";
    }
    assert intermediates[..|intermediates|] == intermediates;
    result := result + root;
  }

  /** `p`, a line break, and `q` as one piece. */
  function Join(p: Piece, q: Piece): Piece {
    if p.blocks == [] then Piece(p.lead + ("\n" + q.lead), q.blocks)
    else
      var n := |p.blocks| - 1;
      Piece(p.lead, p.blocks[..n] + [Extended(p.blocks[n], q.lead)] + q.blocks)
  }

  function Extended(b: Placed, lead: string): Placed {
    b.(gap := b.gap + ("\n" + lead))
  }

  lemma SingleText(b: Placed)
    ensures TextOf([b]) == BlockText(b, b.gap)
  {
    assert [b][1..] == [];
    assert b.gap + "" == b.gap;
  }

  lemma JoinText(p: Piece, q: Piece)
    ensures Text(Join(p, q)) == Text(p) + ("\n" + Text(q))
  {
    hide TextOf, BlockText;
    var sep := "\n" + q.lead;
    Assoc("\n", q.lead, TextOf(q.blocks));
    if p.blocks == [] {
      EmptyText();
      Assoc(p.lead, sep, TextOf(q.blocks));
      assert p.lead + "" == p.lead;
    } else {
      var n := |p.blocks| - 1;
      var front, b := p.blocks[..n], p.blocks[n];
      var last := Extended(b, q.lead);
      assert p.blocks == front + [b];
      TextAppend(front, [b]);
      TextAppend(front, [last]);
      TextAppend(front + [last], q.blocks);
      SingleText(b);
      SingleText(last);
      BlockTextAppend(b, b.gap, sep);
      SameBlock(b, last.gap);
      Assoc(TextOf(front), TextOf([b]), sep);
      Assoc(p.lead, TextOf(p.blocks), sep);
      Assoc(TextOf(p.blocks), sep, TextOf(q.blocks));
      Assoc(p.lead, TextOf(p.blocks), sep + TextOf(q.blocks));
    }
  }

  lemma EmptyText()
    ensures TextOf([]) == ""
  {
  }

  lemma ExtendedOk(x: Codec, b: Placed, lead: string)
    requires BlockOk(x, b) && White(lead)
    ensures BlockOk(x, Extended(b, lead)) && '\n' in Extended(b, lead).gap
    ensures CertOf(x, Extended(b, lead)) == CertOf(x, b)
  {
    hide LineOf;
    GapExtend(b.gap, lead);
    assert Extended(b, lead).gap[|b.gap|] == '\n';
  }

  lemma {:induction false} CertsAppend(x: Codec, a: seq<Placed>, b: seq<Placed>)
    requires BlocksOk(x, a) && BlocksOk(x, b) && BlocksOk(x, a + b)
    ensures Certs(x, a + b) == Certs(x, a) + Certs(x, b)
  {
    hide BlockOk;
    if a == [] {
      assert a + b == b;
    } else {
      assert (a + b)[1..] == a[1..] + b;
      RestOk(x, a);
      RestOk(x, a + b);
      CertsAppend(x, a[1..], b);
    }
  }

  lemma AppendOk(x: Codec, front: seq<Placed>, last: Placed, back: seq<Placed>)
    requires BlocksOk(x, front) && BlockOk(x, last) && BlocksOk(x, back)
    requires front != [] ==> '\n' in front[|front| - 1].gap
    requires back != [] ==> '\n' in last.gap
    ensures BlocksOk(x, front + [last] + back)
  {
    hide BlockOk;
  }

  lemma JoinWellFormed(x: Codec, p: Piece, q: Piece)
    requires WellFormed(x, p) && WellFormed(x, q)
    ensures WellFormed(x, Join(p, q))
    ensures Certs(x, Join(p, q).blocks) == Certs(x, p.blocks) + Certs(x, q.blocks)
  {
    hide BlockOk, CertOf;
    if p.blocks != [] {
      var n := |p.blocks| - 1;
      var front, b := p.blocks[..n], p.blocks[n];
      assert p.blocks == front + [b];
      assert BlocksOk(x, front) && BlockOk(x, b);
      assert front != [] ==> '\n' in front[|front| - 1].gap;
      ReplaceLast(x, front, b, q);
    }
  }

  /** Extending the last gap keeps the certificates. */
  lemma ReplaceLast(x: Codec, front: seq<Placed>, b: Placed, q: Piece)
    requires BlocksOk(x, front) && BlockOk(x, b) && WellFormed(x, q)
    requires front != [] ==> '\n' in front[|front| - 1].gap
    ensures BlocksOk(x, front + [b]) && BlocksOk(x, front + [Extended(b, q.lead)] + q.blocks)
    ensures Certs(x, front + [Extended(b, q.lead)] + q.blocks) == Certs(x, front + [b]) + Certs(x, q.blocks)
  {
    hide BlockOk, CertOf, Extended;
    var last := Extended(b, q.lead);
    ExtendedOk(x, b, q.lead);
    assert front + [b] + [] == front + [b] && front + [last] + [] == front + [last];
    AppendOk(x, front, b, []);
    AppendOk(x, front, last, []);
    AppendOk(x, front, last, q.blocks);
    SingleCert(x, b);
    SingleCert(x, last);
    hide BlocksOk, Certs;
    CertsAppend(x, front, [b]);
    CertsAppend(x, front, [last]);
    CertsAppend(x, front + [last], q.blocks);
  }

  lemma SingleCert(x: Codec, b: Placed)
    requires BlockOk(x, b)
    ensures BlocksOk(x, [b]) && Certs(x, [b]) == [CertOf(x, b)]
  {
    hide BlockOk, CertOf;
    assert [b][1..] == [];
  }

  function Texts(ps: seq<Piece>): (r: seq<string>)
    ensures |r| == |ps|
  {
    if ps == [] then [] else [Text(ps[0])] + Texts(ps[1..])
  }

  predicate AllWellFormed(x: Codec, ps: seq<Piece>) {
    forall i | 0 <= i < |ps| :: WellFormed(x, ps[i])
  }

  function AllCerts(x: Codec, ps: seq<Piece>): seq<Certificate>
    requires AllWellFormed(x, ps)
  {
    if ps == [] then []
    else
      assert WellFormed(x, ps[0]);
      Certs(x, ps[0].blocks) + AllCerts(x, ps[1..])
  }

  /** The pieces `ps`, each on its own line, followed by `q`. */
  function JoinAll(ps: seq<Piece>, q: Piece): Piece {
    if ps == [] then q else Join(ps[0], JoinAll(ps[1..], q))
  }

  lemma {:induction false} JoinAllReads(x: Codec, ps: seq<Piece>, q: Piece)
    requires WellFormed(x, q) && AllWellFormed(x, ps)
    ensures Text(JoinAll(ps, q)) == Lines(Texts(ps)) + Text(q)
    ensures WellFormed(x, JoinAll(ps, q))
    ensures Certs(x, JoinAll(ps, q).blocks) == AllCerts(x, ps) + Certs(x, q.blocks)
  {
    hide Text, WellFormed, Join, Certs;
    if ps == [] {
    } else {
      var rest := JoinAll(ps[1..], q);
      JoinAllReads(x, ps[1..], q);
      JoinText(ps[0], rest);
      assert WellFormed(x, ps[0]);
      JoinWellFormed(x, ps[0], rest);
      var ls := Lines(Texts(ps[1..]));
      assert Texts(ps)[1..] == Texts(ps[1..]);
      Assoc("\n", ls, Text(q));
      Assoc(Text(ps[0]), "\n" + ls, Text(q));
    }
  }

  /** Reading what ConcatCertChain wrote gives the certificates of the leaf piece, of each
      intermediate piece in order, and of the root piece, for any number of blocks in each. */
  lemma ConcatenatedReads(x: Codec, leaf: Piece, intermediates: seq<Piece>, root: Piece)
    requires WellFormed(x, leaf) && WellFormed(x, root)
    requires AllWellFormed(x, intermediates)
    ensures ParseAll(x, Concatenated(Text(leaf), Texts(intermediates), Text(root)))
         == Ok(Certs(x, leaf.blocks) + AllCerts(x, intermediates) + Certs(x, root.blocks))
  {
    var rest := JoinAll(intermediates, root);
    JoinAllReads(x, intermediates, root);
    var ls := Lines(Texts(intermediates));
    if |Text(leaf)| > 0 {
      hide *;
      var all := Join(leaf, rest);
      JoinText(leaf, rest);
      JoinWellFormed(x, leaf, rest);
      ParsePiece(x, all);
      ConcatenatedNonEmpty(Text(leaf), Texts(intermediates), Text(root));
      AssocCerts(Certs(x, leaf.blocks), AllCerts(x, intermediates), Certs(x, root.blocks));
    } else {
      NoText(leaf);
      hide *;
      ParsePiece(x, rest);
      ConcatenatedEmpty(Text(leaf), Texts(intermediates), Text(root));
      NoCerts(x);
    }
  }

  lemma ConcatenatedNonEmpty(leaf: string, intermediates: seq<string>, root: string)
    requires |leaf| > 0
    ensures Concatenated(leaf, intermediates, root) == leaf + ("\n" + (Lines(intermediates) + root))
  {
    hide Lines;
    Assoc("\n", Lines(intermediates), root);
    Assoc(leaf, "\n", Lines(intermediates));
    Assoc(leaf, "\n" + Lines(intermediates), root);
  }

  lemma ConcatenatedEmpty(leaf: string, intermediates: seq<string>, root: string)
    requires |leaf| == 0
    ensures Concatenated(leaf, intermediates, root) == Lines(intermediates) + root
  {
    hide Lines;
    assert "" + Lines(intermediates) == Lines(intermediates);
  }

  lemma AssocCerts(a: seq<Certificate>, b: seq<Certificate>, c: seq<Certificate>)
    ensures a + (b + c) == a + b + c
  {
  }

  lemma NoText(p: Piece)
    requires |Text(p)| == 0
    ensures p.blocks == []
  {
  }

  lemma NoCerts(x: Codec)
    ensures BlocksOk(x, []) && Certs(x, []) == []
    ensures forall cs: seq<Certificate> :: [] + cs == cs
  {
  }

  // ----------------------------------------------------------------------- encoding

  /** MarshalCertificateToPEM. */
  function EncodeCert(x: Codec, c: Certificate): string {
    BlockText(Placed("CERTIFICATE", "", x.armor(c.raw), ""), "\n")
  }

  function CertPiece(x: Codec, c: Certificate, gap: string): Piece {
    Piece("", [Placed("CERTIFICATE", "", x.armor(c.raw), gap)])
  }

  /** The framing of an encoded certificate. */
  lemma EncodedFrame(x: Codec, c: Certificate)
    ensures EncodeCert(x, c)
         == "-----BEGIN CERTIFICATE-----\n" + x.armor(c.raw) + "\n-----END CERTIFICATE-----\n"
  {
    var body := x.armor(c.raw);
    var b := Placed("CERTIFICATE", "", body, "");
    var end := ("\n" + END) + Label("CERTIFICATE", "\n");
    assert end == "\n-----END CERTIFICATE-----\n";
    assert BEGIN + (BeginLine(b) + "\n") == "-----BEGIN CERTIFICATE-----\n";
    Assoc(BeginLine(b), "\n", body + end);
    Assoc(BEGIN, BeginLine(b) + "\n", body + end);
    Assoc("-----BEGIN CERTIFICATE-----\n", body, end);
  }

  lemma LineBreakGap()
    ensures GapOk("") && GapOk("\n")
  {
    EmptyLine();
    LineBreakAt("", "");
    assert "" + ("\n" + "") == "\n";
  }

  lemma CertPieceOk(x: Codec, c: Certificate, gap: string)
    requires Lawful(x) && Genuine(x, c) && GapOk(gap)
    ensures WellFormed(x, CertPiece(x, c, gap)) && Certs(x, CertPiece(x, c, gap).blocks) == [c]
  {
    hide GapOk;
    assert x.unarmor(x.armor(c.raw)) == Some(c.raw);
    var bs := CertPiece(x, c, gap).blocks;
    assert BlockOk(x, bs[0]);
    assert bs[1..] == [];
  }

  lemma CertPieceText(x: Codec, c: Certificate)
    ensures Text(CertPiece(x, c, "\n")) == EncodeCert(x, c)
    ensures Text(CertPiece(x, c, "")) == TrimSpace(EncodeCert(x, c))
  {
    hide BlockText, TrimSpace, TextOf;
    var b := Placed("CERTIFICATE", "", x.armor(c.raw), "\n");
    SingleText(b);
    SameBlock(b, "");
    assert "" + TextOf([b]) == TextOf([b]);
    TrimText("", [b]);
    assert DropLastGap([b]) == [b.(gap := "")];
    assert "" + TextOf([b.(gap := "")]) == TextOf([b.(gap := "")]);
  }

  /** An encoded certificate is a well-formed piece, with or without its final line break. */
  lemma EncodedIsPiece(x: Codec, c: Certificate)
    requires Lawful(x) && Genuine(x, c)
    ensures WellFormed(x, CertPiece(x, c, "")) && Certs(x, CertPiece(x, c, "").blocks) == [c]
    ensures WellFormed(x, CertPiece(x, c, "\n")) && Certs(x, CertPiece(x, c, "\n").blocks) == [c]
    ensures Text(CertPiece(x, c, "\n")) == EncodeCert(x, c)
    ensures Text(CertPiece(x, c, "")) == TrimSpace(EncodeCert(x, c))
  {
    hide *;
    LineBreakGap();
    CertPieceOk(x, c, "");
    CertPieceOk(x, c, "\n");
    CertPieceText(x, c);
  }

  lemma SameBlock(b: Placed, gap: string)
    ensures forall t :: BlockText(b, t) == BlockText(b.(gap := gap), t)
  {
  }

  /** A certificate survives encoding and reading. */
  lemma EncodeThenRead(x: Codec, c: Certificate)
    requires Lawful(x) && Genuine(x, c)
    ensures ParseAll(x, EncodeCert(x, c)) == Ok([c])
  {
    hide ParseAll, EncodeCert, Text;
    EncodedIsPiece(x, c);
    ParsePiece(x, CertPiece(x, c, "\n"));
  }

  /** Encodings determine the certificate. */
  lemma EncodeInjective(x: Codec, c: Certificate, d: Certificate)
    requires Lawful(x) && Genuine(x, c) && Genuine(x, d)
    requires EncodeCert(x, c) == EncodeCert(x, d)
    ensures c == d
  {
    hide ParseAll, EncodeCert;
    EncodeThenRead(x, c);
    EncodeThenRead(x, d);
  }
}
