/** Splitting a certificate chain into named files (tools/tuf/pkg/certs/certs.go). */
module CertChain {
  import opened Wrappers
  import opened Strings
  import opened Pem
  import opened PemText
  import opened PemConcat

  const SUFFIX := ".crt.pem"

  function LeafName(prefix: string): string {
    prefix + "_leaf.crt.pem"
  }

  function RootName(prefix: string): string {
    prefix + "_root.crt.pem"
  }

  function IntermediateName(prefix: string, i: nat): string {
    prefix + ("_intermediate_" + (Decimal(i) + SUFFIX))
  }

  /** The name of the certificate at position `i` of a chain of `n`: the leaf first, the
      intermediates numbered from the leaf side, the root last. */
  function NameAt(prefix: string, n: nat, i: nat): string
    requires i < n
  {
    if i == 0 then LeafName(prefix)
    else if i == n - 1 then RootName(prefix)
    else IntermediateName(prefix, i - 1)
  }

  ghost predicate IsSplit(x: Codec, cs: seq<Certificate>, prefix: string, m: map<string, string>) {
    && (forall k :: k in m ==> exists i: nat :: i < |cs| && k == NameAt(prefix, |cs|, i))
    && (forall i: nat | i < |cs| ::
          NameAt(prefix, |cs|, i) in m && m[NameAt(prefix, |cs|, i)] == EncodeCert(x, cs[i]))
  }

  datatype SplitError = Unreadable(cause: ParseError) | TooShort(count: nat)

  lemma IntermediateNameDistinct(prefix: string, i: nat, j: nat)
    requires IntermediateName(prefix, i) == IntermediateName(prefix, j)
    ensures i == j
  {
    var a, b := Decimal(i) + SUFFIX, Decimal(j) + SUFFIX;
    Dropped(prefix, "_intermediate_" + a);
    Dropped(prefix, "_intermediate_" + b);
    Dropped("_intermediate_", a);
    Dropped("_intermediate_", b);
    assert a == b;
    assert |Decimal(i)| == |Decimal(j)|;
    Dropped(Decimal(i), SUFFIX);
    Dropped(Decimal(j), SUFFIX);
    DecimalInjective(i, j);
  }

  lemma NamesDiffer(prefix: string, i: nat)
    ensures LeafName(prefix) != RootName(prefix)
    ensures IntermediateName(prefix, i) != LeafName(prefix)
    ensures IntermediateName(prefix, i) != RootName(prefix)
  {
    assert LeafName(prefix)[|prefix| + 1] == 'l';
    assert RootName(prefix)[|prefix| + 1] == 'r';
    assert IntermediateName(prefix, i)[|prefix| + 1] == 'i';
  }

  /** Positions have pairwise distinct names, for every prefix and length. */
  lemma NameAtInjective(prefix: string, n: nat, i: nat, j: nat)
    requires i < n && j < n && NameAt(prefix, n, i) == NameAt(prefix, n, j)
    ensures i == j
  {
    hide LeafName, RootName, IntermediateName;
    NamesDiffer(prefix, if i > 0 then i - 1 else 0);
    NamesDiffer(prefix, if j > 0 then j - 1 else 0);
    if 0 < i < n - 1 && 0 < j < n - 1 {
      IntermediateNameDistinct(prefix, i - 1, j - 1);
    }
  }

  /** A split in which the intermediates before `k` have been entered. */
  ghost predicate PartlySplit(x: Codec, cs: seq<Certificate>, prefix: string, m: map<string, string>, k: nat) {
    && (forall s :: s in m ==> exists i: nat :: i < |cs| && s == NameAt(prefix, |cs|, i))
    && (forall i: nat | i < |cs| && (i <= k || i == |cs| - 1) ::
          NameAt(prefix, |cs|, i) in m && m[NameAt(prefix, |cs|, i)] == EncodeCert(x, cs[i]))
  }

  lemma StartSplit(x: Codec, cs: seq<Certificate>, prefix: string)
    requires |cs| >= 2
    ensures PartlySplit(x, cs, prefix,
              map[LeafName(prefix) := EncodeCert(x, cs[0])][RootName(prefix) := EncodeCert(x, cs[|cs| - 1])], 0)
  {
    hide EncodeCert, LeafName, RootName;
    NamesDiffer(prefix, 0);
    assert LeafName(prefix) == NameAt(prefix, |cs|, 0) && RootName(prefix) == NameAt(prefix, |cs|, |cs| - 1);
  }

  lemma ExtendSplit(x: Codec, cs: seq<Certificate>, prefix: string, m: map<string, string>, k: nat)
    requires k + 1 < |cs| - 1 && PartlySplit(x, cs, prefix, m, k)
    ensures PartlySplit(x, cs, prefix, m[IntermediateName(prefix, k) := EncodeCert(x, cs[k + 1])], k + 1)
  {
    var s := IntermediateName(prefix, k);
    assert s == NameAt(prefix, |cs|, k + 1);
    hide NameAt, IntermediateName, EncodeCert;
    forall i: nat | i < |cs| && (i <= k || i == |cs| - 1)
      ensures NameAt(prefix, |cs|, i) != s
    {
      if NameAt(prefix, |cs|, i) == s {
        NameAtInjective(prefix, |cs|, i, k + 1);
      }
    }
  }

  /** SplitCertChain. The root is entered before the intermediates. */
  method SplitCertChain(x: Codec, chain: string, prefix: string) returns (r: Result<map<string, string>, SplitError>)
    ensures match ParseAll(x, chain)
            case Err(e) => r == Err(Unreadable(e))
            case Ok(cs) =>
              if |cs| < 2 then r == Err(TooShort(|cs|))
              else r.Ok? && IsSplit(x, cs, prefix, r.value)
  {
    hide ParseAll, EncodeCert, NameAt, LeafName, RootName, IntermediateName, PartlySplit;
    var parsed := ReadChain(x, chain);
    if parsed.Err? {
      return Err(Unreadable(parsed.error));
    }
    var cs := parsed.value;
    if |cs| < 2 {
      return Err(TooShort(|cs|));
    }
    var n := |cs|;
    var ret: map<string, string> := map[];
    ret := ret[LeafName(prefix) := EncodeCert(x, cs[0])];
    ret := ret[RootName(prefix) := EncodeCert(x, cs[n - 1])];
    StartSplit(x, cs, prefix);
    var certs := cs[1..n - 1];
    for k := 0 to |certs|
      invariant PartlySplit(x, cs, prefix, ret, k)
    {
      ExtendSplit(x, cs, prefix, ret, k);
      ret := ret[IntermediateName(prefix, k) := EncodeCert(x, certs[k])];
    }
    FullySplit(x, cs, prefix, ret);
    return Ok(ret);
  }

  lemma FullySplit(x: Codec, cs: seq<Certificate>, prefix: string, m: map<string, string>)
    requires |cs| >= 2 && PartlySplit(x, cs, prefix, m, |cs| - 2)
    ensures IsSplit(x, cs, prefix, m)
  {
    hide NameAt, EncodeCert;
  }

  // ------------------------------------------------------------ nothing is forgotten

  /** The set of the names of the positions before `k`. */
  ghost function NamesBefore(prefix: string, n: nat, k: nat): set<string>
    requires k <= n
  {
    if k == 0 then {} else NamesBefore(prefix, n, k - 1) + {NameAt(prefix, n, k - 1)}
  }

  lemma {:induction false} NamesBeforeCount(prefix: string, n: nat, k: nat)
    requires k <= n
    ensures |NamesBefore(prefix, n, k)| == k
    ensures forall s :: s in NamesBefore(prefix, n, k) <==> exists i: nat :: i < k && s == NameAt(prefix, n, i)
  {
    hide NameAt;
    if k == 0 {
    } else {
      NamesBeforeCount(prefix, n, k - 1);
      var s := NameAt(prefix, n, k - 1);
      if s in NamesBefore(prefix, n, k - 1) {
        var i: nat :| i < k - 1 && s == NameAt(prefix, n, i);
        NameAtInjective(prefix, n, i, k - 1);
      }
    }
  }

  /** The files in chain order, read off the map alone. */
  function Rebuild(m: map<string, string>, prefix: string): (r: seq<string>)
    requires forall i: nat | i < |m| :: NameAt(prefix, |m|, i) in m
  {
    seq(|m|, i requires 0 <= i < |m| => m[NameAt(prefix, |m|, i)])
  }

  /** A split has exactly one file per certificate, and the map alone gives the chain back. */
  lemma SplitThenRebuild(x: Codec, cs: seq<Certificate>, prefix: string, m: map<string, string>)
    requires Lawful(x) && IsSplit(x, cs, prefix, m)
    requires forall i | 0 <= i < |cs| :: Genuine(x, cs[i])
    ensures |m| == |cs|
    ensures forall i: nat | i < |m| :: NameAt(prefix, |m|, i) in m
    ensures forall i | 0 <= i < |cs| :: ParseAll(x, Rebuild(m, prefix)[i]) == Ok([cs[i]])
  {
    hide NameAt, EncodeCert, ParseAll;
    NamesBeforeCount(prefix, |cs|, |cs|);
    assert m.Keys == NamesBefore(prefix, |cs|, |cs|);
    forall i | 0 <= i < |cs|
      ensures ParseAll(x, Rebuild(m, prefix)[i]) == Ok([cs[i]])
    {
      EncodeThenRead(x, cs[i]);
    }
  }
}
