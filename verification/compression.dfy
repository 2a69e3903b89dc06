/** The compression names accepted on the command line (`parseCompression` in
    cmd/common.go). */
module Compression {
  import opened Results
  import Text

  /** The container's compression codes (`mdocx.Compression`). */
  datatype Compression = CompNone | CompZSTD | CompZIP | CompLZ4 | CompBR

  datatype ParseError = UnknownCompression(value: string)

  /** Every spelling that selects `c`, after normalisation. */
  function Aliases(c: Compression): set<string> {
    match c
    case CompZSTD => {"", "zstd"}
    case CompNone => {"none"}
    case CompZIP => {"zip"}
    case CompLZ4 => {"lz4"}
    case CompBR => {"br", "brotli"}
  }

  /** The name under which `c` is normally written. */
  function CanonicalName(c: Compression): (name: string)
    ensures name in Aliases(c) && name != ""
    ensures forall k :: 0 <= k < |name| ==> Text.IsLowerLetter(name[k]) || Text.IsDigit(name[k])
  {
    match c
    case CompZSTD => "zstd"
    case CompNone => "none"
    case CompZIP => "zip"
    case CompLZ4 => "lz4"
    case CompBR => "br"
  }

  /** The fixed table from normalised names to compressions. */
  function Lookup(name: string): Option<Compression>
  {
    if name == "" || name == "zstd" then Some(CompZSTD)
    else if name == "none" then Some(CompNone)
    else if name == "zip" then Some(CompZIP)
    else if name == "lz4" then Some(CompLZ4)
    else if name == "br" || name == "brotli" then Some(CompBR)
    else None
  }

  /** The table agrees with `Aliases`. */
  lemma LookupAliases(name: string)
    ensures Lookup(name).Some? ==> name in Aliases(Lookup(name).value)
    ensures Lookup(name).None? ==> forall c :: name !in Aliases(c)
  {
  }

  /** Looks a name up in the fixed table after normalising it; the empty name selects
      the default, ZSTD. An unknown name is reported with the value as it was given. */
  function ParseCompression(value: string): (r: Result<Compression, ParseError>)
    ensures r.Success? <==> exists c :: Text.Normalize(value) in Aliases(c)
    ensures r.Success? ==> Text.Normalize(value) in Aliases(r.value)
    ensures r.Failure? ==> r.error == UnknownCompression(value)
  {
    LookupAliases(Text.Normalize(value));
    match Lookup(Text.Normalize(value))
    case Some(c) => Success(c)
    case None => Failure(UnknownCompression(value))
  }

  /** The aliases of different compressions are disjoint, so the table is a function:
      a value parses to `c` exactly when its normalised form is one of `c`'s aliases. */
  lemma ParseCompressionTable(value: string, c: Compression)
    ensures ParseCompression(value) == Success(c) <==> Text.Normalize(value) in Aliases(c)
  {
    var n := Text.Normalize(value);
    if n in Aliases(c) {
      var r := ParseCompression(value);
      assert r.Success?;
      assert n in Aliases(r.value);
      AliasesDisjoint(r.value, c, n);
    }
  }

  lemma AliasesDisjoint(c: Compression, c': Compression, name: string)
    requires name in Aliases(c) && name in Aliases(c')
    ensures c == c'
  {
  }

  /** Case and surrounding white space do not matter. */
  lemma ParseIgnoresCaseAndSpace(value: string)
    ensures ParseCompression(Text.Normalize(value)).Success? == ParseCompression(value).Success?
    ensures ParseCompression(value).Success? ==>
      ParseCompression(Text.Normalize(value)) == ParseCompression(value)
  {
    Text.NormalizeIdempotent(value);
  }

  /** Canonical names are already in normal form. */
  lemma NormalizeCanonicalName(c: Compression)
    ensures Text.Normalize(CanonicalName(c)) == CanonicalName(c)
  {
    Text.NormalWord(CanonicalName(c));
  }

  /** Every compression's canonical name parses back to it. */
  lemma ParseCanonicalName(c: Compression)
    ensures ParseCompression(CanonicalName(c)) == Success(c)
  {
    NormalizeCanonicalName(c);
    match c
    case CompZSTD => assert Lookup("zstd") == Some(CompZSTD);
    case CompNone => assert Lookup("none") == Some(CompNone);
    case CompZIP => assert Lookup("zip") == Some(CompZIP);
    case CompLZ4 => assert Lookup("lz4") == Some(CompLZ4);
    case CompBR => assert Lookup("br") == Some(CompBR);
  }

  /** The empty name selects the default compression. */
  lemma ParseEmptyIsDefault()
    ensures ParseCompression("") == Success(CompZSTD)
  {
    Text.TrimSpaceNoEdges("");
  }
}
