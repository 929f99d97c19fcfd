/**
 * The display names of TileDB's filter kinds, as the static `Filter::to_str`
 * of the C++ API gives them, and the `Filter<NAME>` form in which a filter is
 * written to an output stream.
 */
module FilterNames {

  import W = Wrappers

  /**
   * The filter-type enumeration. The eleven named constructors are the cases
   * of `tiledb_filter_type_t`; a C enum may also hold a value that is none of
   * them, which `Unknown` carries as its raw code.
   */
  datatype FilterType =
    | None
    | Gzip
    | Zstd
    | Lz4
    | Rle
    | Bzip2
    | DoubleDelta
    | BitWidthReduction
    | BitShuffle
    | ByteShuffle
    | PositiveDelta
      // `raw` stands for an integer code that is none of the cases above; the
      // numbers of the cases themselves are not part of this model.
    | Unknown(raw: int)
  {
    /** True of the values that name a case of the enumeration. */
    predicate IsNamed() {
      !Unknown?
    }
  }

  /** Every named filter kind, in the order of the `switch` in `to_str`. */
  const NamedKinds: seq<FilterType> :=
    [None, Gzip, Zstd, Lz4, Rle, Bzip2, DoubleDelta, BitWidthReduction,
     BitShuffle, ByteShuffle, PositiveDelta]

  /** The text that opens the stream form of a filter. */
  const Prefix: string := "Filter<"

  /** The character that closes the stream form of a filter. */
  const Close: char := '>'

  /** True when `s` holds neither angle bracket. */
  predicate NoAngles(s: string) {
    '<' !in s && Close !in s
  }

  /** True when no two kinds of `ks` share a display name. */
  predicate DistinctNames(ks: seq<FilterType>) {
    forall i, j :: 0 <= i < j < |ks| ==> ToStr(ks[i]) != ToStr(ks[j])
  }

  /**
   * `Filter::to_str`: the display name of a filter kind. A value outside the
   * enumeration falls through the `switch` and yields the empty string; the
   * name of a named kind is never empty and never holds an angle bracket.
   */
  function ToStr(t: FilterType): (name: string)
    ensures name == "" <==> t.Unknown?
    ensures NoAngles(name)
  {
    match t
    case None => "NOOP"
    case Gzip => "GZIP"
    case Zstd => "ZSTD"
    case Lz4 => "LZ4"
    case Rle => "RLE"
    case Bzip2 => "BZIP2"
    case DoubleDelta => "DOUBLE_DELTA"
    case BitWidthReduction => "BIT_WIDTH_REDUCTION"
    case BitShuffle => "BITSHUFFLE"
    case ByteShuffle => "BYTESHUFFLE"
    case PositiveDelta => "POSITIVE_DELTA"
    case Unknown(_) => ""
  }

  /** The table of named kinds lists exactly the eleven named values of the enumeration. */
  lemma NamedKindsComplete()
    ensures forall t: FilterType :: t.IsNamed() <==> t in NamedKinds
    ensures |NamedKinds| == 11
  {
  }

  /** The eleven names of the table are pairwise different. */
  lemma NamedKindsDistinct()
    ensures DistinctNames(NamedKinds)
  {
  }

  /** The first kind of `ks` whose display name is `name`, if any. */
  function Find(name: string, ks: seq<FilterType>): (r: W.Option<FilterType>)
    ensures r.Some? ==> r.value in ks && ToStr(r.value) == name
    ensures r.Some? ==> exists k :: 0 <= k < |ks| && ks[k] == r.value &&
                          forall i :: 0 <= i < k ==> ToStr(ks[i]) != name
    ensures r.None? ==> forall t :: t in ks ==> ToStr(t) != name
    decreases |ks|
  {
    if ks == [] then W.None
    else if ToStr(ks[0]) == name then W.Some(ks[0])
    else Find(name, ks[1..])
  }

  /**
   * In a table without repeated names, a kind is found under its own name:
   * by the contract of `Find`, something is found, and it has the same name.
   */
  lemma FindComplete(name: string, ks: seq<FilterType>, t: FilterType)
    requires t in ks && ToStr(t) == name
    requires DistinctNames(ks)
    ensures Find(name, ks) == W.Some(t)
  {
  }

  /**
   * Reverse lookup of a display name: the named kind it belongs to, or
   * nothing when no named kind has that name.
   */
  function FromStr(name: string): (r: W.Option<FilterType>)
    ensures r.Some? ==> r.value.IsNamed() && ToStr(r.value) == name
    ensures r.None? <==> forall t: FilterType :: t.IsNamed() ==> ToStr(t) != name
  {
    NamedKindsComplete();
    Find(name, NamedKinds)
  }

  /** Round trip: looking up the name of a named kind gives that kind back. */
  lemma FromStrToStr(t: FilterType)
    requires t.IsNamed()
    ensures FromStr(ToStr(t)) == W.Some(t)
  {
    NamedKindsComplete();
    NamedKindsDistinct();
    FindComplete(ToStr(t), NamedKinds, t);
  }

  /** The empty name belongs to no named kind. */
  lemma FromStrEmpty()
    ensures FromStr("") == W.None
  {
  }

  /** Two distinct named kinds never share a display name. */
  lemma ToStrInjective(a: FilterType, b: FilterType)
    requires a.IsNamed() && b.IsNamed()
    requires ToStr(a) == ToStr(b)
    ensures a == b
  {
    FromStrToStr(a);
    FromStrToStr(b);
  }

  /** `TILEDB_FILTER_NONE` is shown as "NOOP"; "NONE" is the name of no kind. */
  lemma NoneIsNoop()
    ensures ToStr(None) == "NOOP"
    ensures FromStr("NOOP") == W.Some(None)
    ensures FromStr("NONE") == W.None
  {
    FromStrToStr(None);
  }

  /**
   * `operator<<`: the text written to the stream for a filter of kind `t`.
   * It opens with "Filter<", closes with '>' and holds exactly the display
   * name in between.
   */
  function Format(t: FilterType): (s: string)
    ensures |s| == |ToStr(t)| + 8
    ensures s[..|Prefix|] == Prefix && s[|s| - 1] == Close
    ensures s[|Prefix|..|s| - 1] == ToStr(t)
  {
    Prefix + ToStr(t) + [Close]
  }

  /** The position of the first `c` in `s`, or `|s|` when there is none. */
  function IndexOf(s: string, c: char): (k: nat)
    ensures k <= |s|
    ensures k < |s| ==> s[k] == c
    ensures forall i :: 0 <= i < k ==> s[i] != c
  {
    if s == [] then 0
    else if s[0] == c then 0
    else 1 + IndexOf(s[1..], c)
  }

  /**
   * Reads one filter back from the front of a stream: "Filter<", then a name
   * that runs up to the first '>', then the rest of the stream.
   */
  function ParseFormatted(s: string): (r: W.Option<(string, string)>)
    ensures r.Some? ==> s == Prefix + r.value.0 + [Close] + r.value.1
    ensures r.Some? ==> Close !in r.value.0
  {
    var n := |Prefix|;
    if |s| < n || s[..n] != Prefix then W.None
    else
      var k := IndexOf(s[n..], Close);
      if k == |s| - n then W.None
      else
        assert s == s[..n] + s[n..][..k] + [Close] + s[n + k + 1..];
        W.Some((s[n..][..k], s[n + k + 1..]))
  }

  /**
   * The reader finds every name without '>': since the name holds no '>', the
   * first '>' after "Filter<" is the one that closes it.
   */
  lemma ParseFormattedComplete(name: string, rest: string)
    requires Close !in name
    ensures ParseFormatted(Prefix + name + [Close] + rest) == W.Some((name, rest))
  {
    var s := Prefix + name + [Close] + rest;
    var n := |Prefix|;
    assert s == Prefix + (name + [Close] + rest);
    assert s[..n] == Prefix;
    assert s[n..] == name + [Close] + rest;
    assert IndexOf(s[n..], Close) == |name| by {
      assert s[n..][|name|] == Close;
      assert forall i :: 0 <= i < |name| ==> s[n..][i] == name[i];
    }
    assert s[n..][..|name|] == name;
    assert s[n + |name| + 1..] == rest;
  }

  /**
   * Whatever follows it on the stream, a formatted filter is read back as its
   * own display name, because no display name holds '>'.
   */
  lemma FormatThenParse(t: FilterType, rest: string)
    ensures ParseFormatted(Format(t) + rest) == W.Some((ToStr(t), rest))
  {
    ParseFormattedComplete(ToStr(t), rest);
  }

  /**
   * Reads a whole stream form back as a filter kind: the inverse of `Format`
   * on the named kinds. Text with anything after the closing '>' is refused.
   */
  function FromFormatted(s: string): (r: W.Option<FilterType>)
    ensures r.Some? ==> r.value.IsNamed() && s == Format(r.value)
  {
    match ParseFormatted(s)
    case None => W.None
    case Some((name, rest)) =>
      if rest != "" then W.None
      else
        assert s == Prefix + name + [Close];
        FromStr(name)
  }

  /** Stripping "Filter<" and '>' from the stream form recovers the kind itself. */
  lemma FormatRoundTrip(t: FilterType)
    requires t.IsNamed()
    ensures FromFormatted(Format(t)) == W.Some(t)
  {
    assert Format(t) + "" == Format(t);
    FormatThenParse(t, "");
    FromStrToStr(t);
  }

  /** Distinct named kinds are written differently. */
  lemma FormatInjective(a: FilterType, b: FilterType)
    requires a.IsNamed() && b.IsNamed()
    requires Format(a) == Format(b)
    ensures a == b
  {
    ToStrInjective(a, b);
  }

  /**
   * Every value outside the enumeration is written as "Filter<>", and no
   * named kind is.
   */
  lemma FormatUnknown(t: FilterType)
    ensures Format(t) == "Filter<>" <==> t.Unknown?
  {
    if Format(t) == "Filter<>" {
      assert |ToStr(t)| == 0;
    }
  }
}
