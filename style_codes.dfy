/** The `hex_codes` list derived from the widget's colours for the generated style string:
    each colour with its leading `#` characters removed (Python's `str.lstrip('#')`). */
module StyleCodes {

  /** True when every character of `s` is `#`. */
  ghost predicate AllHashes(s: string) {
    forall k :: 0 <= k < |s| ==> s[k] == '#'
  }

  /** `c.lstrip('#')`: removes every leading `#`, and nothing else. The result is what is left
      after a run of `#` at the front of `c`, and it does not itself start with `#`. */
  function StripHashes(c: string): (r: string)
    ensures |r| <= |c|
    ensures r == c[|c| - |r|..]
    ensures forall k :: 0 <= k < |c| - |r| ==> c[k] == '#'
    ensures r == [] || r[0] != '#'
    decreases |c|
  {
    if |c| > 0 && c[0] == '#' then StripHashes(c[1..]) else c
  }

  /** The decomposition in StripHashes' contract determines its result: any split of `c` into a
      run of `#` followed by a part that does not start with `#` has exactly that part as the
      stripped colour. */
  lemma {:induction false} StripHashesUnique(c: string, prefix: string, rest: string)
    requires c == prefix + rest
    requires AllHashes(prefix)
    requires rest == [] || rest[0] != '#'
    ensures StripHashes(c) == rest
    decreases |prefix|
  {
    if prefix == [] {
      assert c == rest;
    } else {
      assert c[0] == '#';
      assert c[1..] == prefix[1..] + rest;
      StripHashesUnique(c[1..], prefix[1..], rest);
    }
  }

  /** Stripping twice strips nothing more. */
  lemma StripHashesIdempotent(c: string)
    ensures StripHashes(StripHashes(c)) == StripHashes(c)
  {
    var r := StripHashes(c);
    assert r == [] + r;
    StripHashesUnique(r, [], r);
  }

  /** A colour written as `#` followed by a hex body loses exactly that one `#`. */
  lemma StripHashesOfHexColor(body: string)
    requires body == [] || body[0] != '#'
    ensures StripHashes(['#'] + body) == body
  {
    StripHashesUnique(['#'] + body, ['#'], body);
  }

  /** `[c.lstrip('#') for c in colors]`: one entry per colour, in the same order. */
  function HexCodes(colors: seq<string>): (r: seq<string>)
    ensures |r| == |colors|
    ensures forall i :: 0 <= i < |colors| ==> r[i] == StripHashes(colors[i])
    ensures forall i :: 0 <= i < |r| ==> r[i] == [] || r[i][0] != '#'
  {
    if colors == [] then [] else [StripHashes(colors[0])] + HexCodes(colors[1..])
  }
}
