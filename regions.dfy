/** Grouping the codes of the rate table by region for the currency list
    (`categorize_currencies`). */
module Regions {
  import opened RateTable
  import opened CodeOrder

  /** A named region and its codes, in display order. */
  datatype Region = Region(name: string, codes: seq<Code>)

  /** The bucket for codes that no fixed region lists. */
  const OthersName: string := "Others"

  /** The fixed regions, in the order they are shown. */
  const FixedRegions: seq<Region> := [
    Region("Major Currencies", ["USD", "EUR", "GBP", "JPY", "CNY", "AUD", "CAD", "CHF", "HKD", "SGD"]),
    Region("Europe", ["SEK", "NOK", "DKK", "PLN", "CZK", "HUF", "RON", "BGN", "ISK", "RUB", "UAH", "HRK",
                      "RSD", "MKD", "ALL", "MDL", "BAM", "BYN"]),
    Region("Americas", ["MXN", "BRL", "ARS", "COP", "CLP", "PEN", "UYU", "BOB", "VES", "PYG", "GTQ",
                        "HNL", "NIO", "CRC", "PAB", "DOP", "JMD", "TTD", "BMD", "BBD"]),
    Region("Asia", ["INR", "KRW", "IDR", "MYR", "THB", "PHP", "PKR", "BDT", "VND", "ILS", "TWD", "LKR",
                    "NPR", "MMK", "KHR", "MNT", "KZT", "UZS", "KGS", "TJS", "AFN", "MVR"]),
    Region("Africa & Middle East", ["ZAR", "EGP", "NGN", "KES", "SAR", "AED", "QAR", "TRY", "MAD", "TND",
                                    "GHS", "UGX", "TZS", "ETB", "ZMW", "BHD", "KWD", "IQD", "JOD", "OMR",
                                    "LBP", "DZD", "LYD", "SDG", "XOF", "XAF"]),
    Region("Oceania", ["NZD", "FJD", "PGK", "SBD", "WST", "TOP", "VUV"]),
    Region("Cryptocurrencies", ["BTC", "ETH", "LTC", "XRP", "BCH", "XMR", "USDT", "USDC", "DAI"])
  ]

  /** No two regions share a name and none is called "Others": the names are
      the keys of a dictionary, to which "Others" is added. */
  predicate WellNamed(regions: seq<Region>) {
    && (forall i, j :: 0 <= i < j < |regions| ==> regions[i].name != regions[j].name)
    && (forall i :: 0 <= i < |regions| ==> regions[i].name != OthersName)
  }

  /** The fixed region names are distinct and do not clash with "Others". */
  lemma FixedRegionsWellNamed()
    ensures WellNamed(FixedRegions)
  {
  }

  /** Some region of `regions` lists `c`. */
  predicate InSomeRegion(c: Code, regions: seq<Region>) {
    exists i :: 0 <= i < |regions| && c in regions[i].codes
  }

  lemma InSomeRegionAppend(c: Code, a: seq<Region>, b: seq<Region>)
    ensures InSomeRegion(c, a + b) <==> InSomeRegion(c, a) || InSomeRegion(c, b)
  {
    if InSomeRegion(c, a + b) {
      var i :| 0 <= i < |a + b| && c in (a + b)[i].codes;
      if i >= |a| { assert c in b[i - |a|].codes; }
      else { assert c in a[i].codes; }
    }
    if InSomeRegion(c, a) {
      var i :| 0 <= i < |a| && c in a[i].codes;
      assert (a + b)[i] == a[i];
    }
    if InSomeRegion(c, b) {
      var i :| 0 <= i < |b| && c in b[i].codes;
      assert (a + b)[|a| + i] == b[i];
    }
  }

  /** The set of every code some region lists (the loop that fills
      `all_categorized`). */
  method CategorizedCodes(regions: seq<Region>) returns (all: set<Code>)
    ensures forall c :: c in all <==> InSomeRegion(c, regions)
  {
    all := {};
    var i := 0;
    while i < |regions|
      invariant 0 <= i <= |regions|
      invariant forall c :: c in all <==> InSomeRegion(c, regions[..i])
    {
      all := all + set c | c in regions[i].codes;
      forall c ensures InSomeRegion(c, regions[..i + 1]) <==> InSomeRegion(c, regions[..i]) || c in regions[i].codes {
        assert regions[..i + 1] == regions[..i] + [regions[i]];
        InSomeRegionAppend(c, regions[..i], [regions[i]]);
      }
      i := i + 1;
    }
    assert regions[..|regions|] == regions;
  }

  /** The list comprehension that keeps the codes of a region that the table
      has, in the region's own order. */
  function Available(codes: seq<Code>, available: set<Code>): seq<Code>
    decreases |codes|
  {
    if codes == [] then []
    else if codes[0] in available then [codes[0]] + Available(codes[1..], available)
    else Available(codes[1..], available)
  }

  /** `s` is `t` with some elements left out, the rest in their order. */
  predicate IsSubsequence(s: seq<Code>, t: seq<Code>)
    decreases |t|
  {
    if s == [] then true
    else if t == [] then false
    else if s[0] == t[0] then IsSubsequence(s[1..], t[1..])
    else IsSubsequence(s, t[1..])
  }

  /** A filtered region holds exactly the listed codes the table has, each as
      often as the list repeats it, in the order of the fixed list. */
  lemma {:induction false} AvailableSpec(codes: seq<Code>, available: set<Code>)
    ensures forall c :: c in Available(codes, available) <==> c in codes && c in available
    ensures forall c :: multiset(Available(codes, available))[c] == if c in available then multiset(codes)[c] else 0
    ensures IsSubsequence(Available(codes, available), codes)
    decreases |codes|
  {
    if codes != [] {
      AvailableSpec(codes[1..], available);
      assert codes == [codes[0]] + codes[1..];
      assert forall c :: c in codes <==> c == codes[0] || c in codes[1..];
      var s := Available(codes, available);
      if codes[0] in available {
        assert s == [codes[0]] + Available(codes[1..], available);
        assert s[0] == codes[0] && s[1..] == Available(codes[1..], available);
      } else if s != [] {
        assert s[0] in available;
      }
    }
  }

  /** A region whose codes the table all has is kept whole. */
  lemma {:induction false} AvailableOfCovered(codes: seq<Code>, available: set<Code>)
    requires forall c :: c in codes ==> c in available
    ensures Available(codes, available) == codes
    decreases |codes|
  {
    if codes != [] {
      AvailableOfCovered(codes[1..], available);
      assert codes == [codes[0]] + codes[1..];
    }
  }

  /** The regions, each filtered to the available codes, with the regions that
      end up empty dropped, in order. */
  function NonEmptyRegions(regions: seq<Region>, available: set<Code>): seq<Region>
    decreases |regions|
  {
    if regions == [] then []
    else
      var codes := Available(regions[0].codes, available);
      (if codes == [] then [] else [Region(regions[0].name, codes)]) + NonEmptyRegions(regions[1..], available)
  }

  lemma {:induction false} NonEmptyRegionsAppend(a: seq<Region>, b: seq<Region>, available: set<Code>)
    ensures NonEmptyRegions(a + b, available) == NonEmptyRegions(a, available) + NonEmptyRegions(b, available)
    decreases |a|
  {
    if a != [] {
      assert (a + b)[0] == a[0] && (a + b)[1..] == a[1..] + b;
      NonEmptyRegionsAppend(a[1..], b, available);
    } else {
      assert a + b == b;
    }
  }

  /** Every region kept is non-empty and is a fixed region filtered to the
      available codes; together they list exactly the available codes that some
      region lists. */
  lemma NonEmptyRegionsSpec(regions: seq<Region>, available: set<Code>)
    ensures var r := NonEmptyRegions(regions, available);
            && (forall i :: 0 <= i < |r| ==> r[i].codes != [])
            && (forall i :: 0 <= i < |r| ==>
                  exists j :: 0 <= j < |regions| && r[i] == Region(regions[j].name, Available(regions[j].codes, available)))
            && (forall c :: InSomeRegion(c, r) <==> c in available && InSomeRegion(c, regions))
  {
    NonEmptyRegionsKept(regions, available);
    NonEmptyRegionsCover(regions, available);
  }

  /** Each kept region is non-empty and is some region filtered. */
  lemma {:induction false} NonEmptyRegionsKept(regions: seq<Region>, available: set<Code>)
    ensures forall i :: 0 <= i < |NonEmptyRegions(regions, available)| ==>
              NonEmptyRegions(regions, available)[i].codes != []
    ensures forall i :: 0 <= i < |NonEmptyRegions(regions, available)| ==>
              exists j :: 0 <= j < |regions| &&
                NonEmptyRegions(regions, available)[i] == Region(regions[j].name, Available(regions[j].codes, available))
    decreases |regions|
  {
    if regions != [] {
      var codes := Available(regions[0].codes, available);
      var head := if codes == [] then [] else [Region(regions[0].name, codes)];
      var tail := NonEmptyRegions(regions[1..], available);
      NonEmptyRegionsKept(regions[1..], available);
      var r := NonEmptyRegions(regions, available);
      assert r == head + tail;
      forall i | 0 <= i < |r|
        ensures r[i].codes != []
        ensures exists j :: 0 <= j < |regions| &&
                  NonEmptyRegions(regions, available)[i] == Region(regions[j].name, Available(regions[j].codes, available))
      {
        if i < |head| {
          assert r[i] == Region(regions[0].name, Available(regions[0].codes, available));
        } else {
          var k := i - |head|;
          assert 0 <= k < |tail| && r[i] == tail[k];
          assert tail[k].codes != [];
          var j :| 0 <= j < |regions[1..]| && tail[k] == Region(regions[1..][j].name, Available(regions[1..][j].codes, available));
          assert r[i] == Region(regions[j + 1].name, Available(regions[j + 1].codes, available));
        }
      }
      assert forall i :: 0 <= i < |NonEmptyRegions(regions, available)| ==>
              exists j :: 0 <= j < |regions| &&
                NonEmptyRegions(regions, available)[i] == Region(regions[j].name, Available(regions[j].codes, available));
    } else {
      assert NonEmptyRegions(regions, available) == [];
    }
  }

  /** The kept regions list exactly the available codes some region lists. */
  lemma {:induction false} NonEmptyRegionsCover(regions: seq<Region>, available: set<Code>)
    ensures forall c :: InSomeRegion(c, NonEmptyRegions(regions, available)) <==> c in available && InSomeRegion(c, regions)
    decreases |regions|
  {
    if regions != [] {
      var codes := Available(regions[0].codes, available);
      var head := if codes == [] then [] else [Region(regions[0].name, codes)];
      var tail := NonEmptyRegions(regions[1..], available);
      NonEmptyRegionsCover(regions[1..], available);
      AvailableSpec(regions[0].codes, available);
      var r := NonEmptyRegions(regions, available);
      assert r == head + tail;
      assert regions == [regions[0]] + regions[1..];
      forall c ensures InSomeRegion(c, r) <==> c in available && InSomeRegion(c, regions) {
        InSomeRegionAppend(c, head, tail);
        InSomeRegionAppend(c, [regions[0]], regions[1..]);
        if codes != [] {
          assert head[0].codes == codes;
        }
        assert InSomeRegion(c, head) <==> c in codes;
        assert InSomeRegion(c, [regions[0]]) <==> c in regions[0].codes;
      }
    }
  }

  /** The loop that fills `filtered_regions`. */
  method FilterRegions(regions: seq<Region>, available: set<Code>) returns (filtered: seq<Region>)
    ensures filtered == NonEmptyRegions(regions, available)
  {
    filtered := [];
    var i := 0;
    while i < |regions|
      invariant 0 <= i <= |regions|
      invariant filtered + NonEmptyRegions(regions[i..], available) == NonEmptyRegions(regions, available)
    {
      assert regions[i..][1..] == regions[i + 1..];
      var codes := Available(regions[i].codes, available);
      if codes != [] {
        filtered := filtered + [Region(regions[i].name, codes)];
      }
      i := i + 1;
    }
    assert filtered + [] == filtered;
  }

  /** What the categorisation promises for a table with codes `available`:
      the fixed regions filtered to the available codes with the empty ones
      dropped, then, exactly when some available code is in no fixed region, an
      "Others" region holding exactly those codes in ascending order. */
  ghost predicate CategorizedAs(fixed: seq<Region>, available: set<Code>, out: seq<Region>) {
    var named := NonEmptyRegions(fixed, available);
    && |named| <= |out| <= |named| + 1
    && out[..|named|] == named
    && (|out| == |named| + 1 <==> exists c :: c in available && !InSomeRegion(c, fixed))
    && (|out| == |named| + 1 ==>
          && out[|named|].name == OthersName
          && StrictlySorted(out[|named|].codes)
          && forall c :: c in out[|named|].codes <==> c in available && !InSomeRegion(c, fixed))
  }

  /** The categorisation is determined by the regions and the codes alone,
      although the "Others" codes are collected from a set whose iteration order
      is arbitrary. */
  lemma CategorizedAsUnique(fixed: seq<Region>, available: set<Code>, out1: seq<Region>, out2: seq<Region>)
    requires CategorizedAs(fixed, available, out1) && CategorizedAs(fixed, available, out2)
    ensures out1 == out2
  {
    var named := NonEmptyRegions(fixed, available);
    if |out1| == |named| + 1 {
      SortedUnique(out1[|named|].codes, out2[|named|].codes);
      assert out1 == named + [out1[|named|]];
      assert out2 == named + [out2[|named|]];
    } else {
      assert out1 == out1[..|named|];
      assert out2 == out2[..|named|];
    }
  }

  /** `categorize_currencies` over given region lists, whose names must be
      distinct keys as in the dictionary of Currency.py: those regions filtered
      to the codes of the table, empty ones dropped, then, when some code of the table is in no
      given region, an "Others" region holding exactly those codes in ascending
      order. Together the regions list every code of the table and nothing else,
      and none of them is empty. */
  method CategorizeBy(fixed: seq<Region>, rates: Rates) returns (out: seq<Region>)
    requires WellNamed(fixed)
    ensures CategorizedAs(fixed, rates.Keys, out)
    ensures forall i :: 0 <= i < |out| ==> out[i].codes != []
    ensures forall c :: c in rates <==> InSomeRegion(c, out)
  {
    var categorized := CategorizedCodes(fixed);
    var available := rates.Keys;
    var others := available - categorized;
    var regions := fixed;
    var bucket: seq<Region> := [];
    if others != {} {
      var sorted := SortCodes(others);
      bucket := [Region(OthersName, sorted)];
      regions := regions + bucket;
    }
    assert regions == fixed + bucket;
    out := FilterRegions(regions, available);

    ghost var named := NonEmptyRegions(fixed, available);
    NonEmptyRegionsAppend(fixed, bucket, available);
    NonEmptyRegionsSpec(fixed, available);
    if bucket != [] {
      var c :| c in others;
      AvailableOfCovered(bucket[0].codes, available);
      assert bucket[0].codes != [] by { assert c in bucket[0].codes; }
      assert NonEmptyRegions(bucket, available) == bucket;
    }
    assert out == named + NonEmptyRegions(bucket, available);
    assert out[..|named|] == named;
    forall c ensures c in rates <==> InSomeRegion(c, out) {
      InSomeRegionAppend(c, named, NonEmptyRegions(bucket, available));
      if bucket != [] {
        assert InSomeRegion(c, bucket) <==> c in bucket[0].codes;
      } else {
        assert c in available ==> c !in others;
      }
    }
  }

  /** `categorize_currencies`: the categorisation over the fixed regions. */
  method Categorize(rates: Rates) returns (out: seq<Region>)
    ensures CategorizedAs(FixedRegions, rates.Keys, out)
    ensures forall i :: 0 <= i < |out| ==> out[i].codes != []
    ensures forall c :: c in rates <==> InSomeRegion(c, out)
  {
    FixedRegionsWellNamed();
    out := CategorizeBy(FixedRegions, rates);
  }
}
