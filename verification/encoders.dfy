/** The three obfuscated outputs of create.py (`create_base64_version`,
    `create_md5_version`, `create_md5_b64_version`): every domain of every
    category, encoded, followed by the fixed entry `example.com`. */
module Encoders {
  import opened Wrappers
  import opened Bytes
  import Base64
  import Hex
  import opened Text

  /** The category to domains mapping, in the order the dictionary yields it. */
  type Sites = seq<(string, seq<string>)>

  /** The JSON object `{'domains': [...]}` an encoder returns. */
  datatype Blacklist = Blacklist(domains: seq<string>)

  /** The entry appended to every output. */
  const Sentinel: string := "example.com"

  /** Every domain of every category, category after category, each
      category's domains in list order. */
  function Flatten(sites: Sites): (flat: seq<string>)
    ensures |flat| == Total(sites)
  {
    if |sites| == 0 then [] else sites[0].1 + Flatten(sites[1..])
  }

  /** The number of domains over all categories. */
  function Total(sites: Sites): nat
  {
    if |sites| == 0 then 0 else |sites[0].1| + Total(sites[1..])
  }

  /** Flattening loses no domain and adds none. */
  lemma {:induction false} FlattenFacts(sites: Sites)
    ensures forall d :: d in Flatten(sites) <==> exists c :: 0 <= c < |sites| && d in sites[c].1
  {
    if |sites| > 0 {
      FlattenFacts(sites[1..]);
      assert forall c :: 0 < c < |sites| ==> sites[c] == sites[1..][c - 1];
      assert forall c :: 0 <= c < |sites| - 1 ==> sites[1..][c] == sites[c + 1];
    }
  }

  /** The mapping of two consecutive groups of categories flattens to the
      concatenation: category order is kept. */
  lemma {:induction false} FlattenAppend(a: Sites, b: Sites)
    ensures Flatten(a + b) == Flatten(a) + Flatten(b)
  {
    if |a| == 0 {
      assert a + b == b;
    } else {
      FlattenAppend(a[1..], b);
      assert (a + b)[0] == a[0];
      assert (a + b)[1..] == a[1..] + b;
      AppendAssociative(a[0].1, Flatten(a[1..]), Flatten(b));
    }
  }

  /** The shared loop of the three encoders: `enc` applied to every domain
      in iteration order, then to the sentinel. */
  function Encode(sites: Sites, enc: string -> string): (out: Blacklist)
    ensures |out.domains| == Total(sites) + 1
    ensures out.domains[Total(sites)] == enc(Sentinel)
    ensures forall i :: 0 <= i < Total(sites) ==> out.domains[i] == enc(Flatten(sites)[i])
  {
    FlattenFacts(sites);
    var flat := Flatten(sites);
    Blacklist(seq(|flat|, i requires 0 <= i < |flat| => enc(flat[i])) + [enc(Sentinel)])
  }

  /** Every domain of every category is in the output, encoded. */
  lemma EveryDomainEncoded(sites: Sites, enc: string -> string, c: int, j: int)
    requires 0 <= c < |sites| && 0 <= j < |sites[c].1|
    ensures enc(sites[c].1[j]) in Encode(sites, enc).domains
  {
    FlattenFacts(sites);
    var d := sites[c].1[j];
    assert d in Flatten(sites);
    var i :| 0 <= i < |Flatten(sites)| && Flatten(sites)[i] == d;
    assert Encode(sites, enc).domains[i] == enc(d);
  }

  /** `create_base64_version(sites)`: the base 64 text of each domain's
      bytes. `bytes` is the byte string Python hands to the codec. */
  function Base64Version(sites: Sites, bytes: string -> seq<Byte>): (out: Blacklist)
    ensures |out.domains| == Total(sites) + 1
    ensures forall i :: 0 <= i < Total(sites) ==> Base64.Decode(out.domains[i]) == Some(bytes(Flatten(sites)[i]))
    ensures Base64.Decode(out.domains[Total(sites)]) == Some(bytes(Sentinel))
    ensures forall i :: 0 <= i < Total(sites) ==> out.domains[i] == Base64.Encode(bytes(Flatten(sites)[i]))
    ensures out.domains[Total(sites)] == Base64.Encode(bytes(Sentinel))
  {
    var out := Encode(sites, d => Base64.Encode(bytes(d)));
    forall i | 0 <= i < Total(sites) ensures Base64.Decode(out.domains[i]) == Some(bytes(Flatten(sites)[i])) {
      Base64.DecodeEncode(bytes(Flatten(sites)[i]));
    }
    Base64.DecodeEncode(bytes(Sentinel));
    out
  }

  /** `create_md5_version(sites)`: the lower-case hexadecimal MD5 digest of
      each domain. The digest function is a parameter. */
  function Md5Version(sites: Sites, bytes: string -> seq<Byte>, md5: seq<Byte> -> seq<Byte>): (out: Blacklist)
    ensures |out.domains| == Total(sites) + 1
    ensures forall i :: 0 <= i < Total(sites) ==> Hex.Decode(out.domains[i]) == Some(md5(bytes(Flatten(sites)[i])))
    ensures Hex.Decode(out.domains[Total(sites)]) == Some(md5(bytes(Sentinel)))
    ensures forall i :: 0 <= i < Total(sites) ==> out.domains[i] == Hex.Encode(md5(bytes(Flatten(sites)[i])))
    ensures out.domains[Total(sites)] == Hex.Encode(md5(bytes(Sentinel)))
  {
    var out := Encode(sites, d => Hex.Encode(md5(bytes(d))));
    forall i | 0 <= i < Total(sites) ensures Hex.Decode(out.domains[i]) == Some(md5(bytes(Flatten(sites)[i]))) {
      Hex.DecodeEncode(md5(bytes(Flatten(sites)[i])));
    }
    Hex.DecodeEncode(md5(bytes(Sentinel)));
    out
  }

  /** `create_md5_b64_version(sites)`: the base 64 text of each domain's raw
      MD5 digest (not of its hexadecimal rendering). */
  function Md5B64Version(sites: Sites, bytes: string -> seq<Byte>, md5: seq<Byte> -> seq<Byte>): (out: Blacklist)
    ensures |out.domains| == Total(sites) + 1
    ensures forall i :: 0 <= i < Total(sites) ==> Base64.Decode(out.domains[i]) == Some(md5(bytes(Flatten(sites)[i])))
    ensures Base64.Decode(out.domains[Total(sites)]) == Some(md5(bytes(Sentinel)))
    ensures forall i :: 0 <= i < Total(sites) ==> out.domains[i] == Base64.Encode(md5(bytes(Flatten(sites)[i])))
    ensures out.domains[Total(sites)] == Base64.Encode(md5(bytes(Sentinel)))
  {
    var out := Encode(sites, d => Base64.Encode(md5(bytes(d))));
    forall i | 0 <= i < Total(sites) ensures Base64.Decode(out.domains[i]) == Some(md5(bytes(Flatten(sites)[i]))) {
      Base64.DecodeEncode(md5(bytes(Flatten(sites)[i])));
    }
    Base64.DecodeEncode(md5(bytes(Sentinel)));
    out
  }

  /** The decoder accepts one text per byte string, so an entry is the only
      text that decodes to its domain's bytes. */
  lemma Base64TextUnique(sites: Sites, bytes: string -> seq<Byte>, i: int, t: string)
    requires 0 <= i <= Total(sites)
    requires Base64.Decode(t) == Some(bytes(if i < Total(sites) then Flatten(sites)[i] else Sentinel))
    ensures t == Base64Version(sites, bytes).domains[i]
  {
    Base64.EncodeDecode(t);
  }

  /** The two digest outputs agree entry by entry: decoding the base 64 of
      an entry and rendering it in hexadecimal gives the md5 output's entry. */
  lemma DigestOutputsAgree(sites: Sites, bytes: string -> seq<Byte>, md5: seq<Byte> -> seq<Byte>, i: int)
    requires 0 <= i <= Total(sites)
    ensures Base64.Decode(Md5B64Version(sites, bytes, md5).domains[i]).Some?
    ensures Hex.Encode(Base64.Decode(Md5B64Version(sites, bytes, md5).domains[i]).value) == Md5Version(sites, bytes, md5).domains[i]
  {
    FlattenFacts(sites);
    var d := if i < Total(sites) then Flatten(sites)[i] else Sentinel;
    Base64.DecodeEncode(md5(bytes(d)));
  }

  /** With a 16-byte digest, as MD5's is, every md5 entry has 32 hexadecimal digits. */
  lemma Md5EntryLength(sites: Sites, bytes: string -> seq<Byte>, md5: seq<Byte> -> seq<Byte>, i: int)
    requires forall x :: |md5(x)| == 16
    requires 0 <= i <= Total(sites)
    ensures |Md5Version(sites, bytes, md5).domains[i]| == 32
  {
    FlattenFacts(sites);
  }
}
