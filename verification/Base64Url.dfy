/** base64url without padding (section 5 of RFC 4648), as src/base64url.cpp:5-89 encodes and decodes it. */
module Base64Url {
  type octet = x: bv32 | x < 256

  datatype Error = NoSpace | BadSize | BadChar(c: octet, offset: nat)
  datatype Result<+T> = Ok(value: T) | Err(error: Error)

  // ---------- The two tables ----------

  /** `b64enctable`: A to Z, a to z, 0 to 9, '-' and '_'. */
  function EncTable(s: octet): octet
    requires s < 64
  {
    if s < 26 then s + 65 else if s < 52 then s + 71 else if s < 62 then s - 4 else if s == 62 then 45 else 95
  }

  /** `b64dectable`: 255 for a character outside the alphabet; '+' and '/' are accepted too. */
  function DecTable(c: octet): octet {
    if 65 <= c <= 90 then c - 65
    else if 97 <= c <= 122 then c - 71
    else if 48 <= c <= 57 then c + 4
    else if c == 45 || c == 43 then 62
    else if c == 95 || c == 47 then 63
    else 255
  }

  predicate Valid(c: octet) { DecTable(c) < 64 }

  lemma {:induction false} TablesInvert(s: octet)
    requires s < 64
    ensures DecTable(EncTable(s)) == s
  {
  }

  /** The spelling of a character that the encoder uses. */
  function Canonical(c: octet): octet {
    if c == 43 then 45 else if c == 47 then 95 else c
  }

  lemma {:induction false} CanonicalInverts(c: octet)
    requires Valid(c)
    ensures EncTable(DecTable(c)) == Canonical(c) && DecTable(Canonical(c)) == DecTable(c)
  {
  }

  // ---------- Three octets and four sextets ----------

  function Triple(a: octet, b: octet, c: octet): bv32 { (a << 16) + (b << 8) + c }

  function Sextet1(triple: bv32): (s: octet) ensures s < 64 { (triple >> 18) & 0x3F }
  function Sextet2(triple: bv32): (s: octet) ensures s < 64 { (triple >> 12) & 0x3F }
  function Sextet3(triple: bv32): (s: octet) ensures s < 64 { (triple >> 6) & 0x3F }
  function Sextet4(triple: bv32): (s: octet) ensures s < 64 { triple & 0x3F }

  /** The octets that consecutive sextets give, cut to eight bits. */
  function First(one: octet, two: octet): octet { ((one << 2) | (two >> 4)) & 0xFF }
  function Second(two: octet, three: octet): octet { ((two << 4) | (three >> 2)) & 0xFF }
  function Third(three: octet, four: octet): octet { ((three << 6) | four) & 0xFF }

  lemma {:induction false} SextetsRebuild(a: octet, b: octet, c: octet)
    ensures var t := Triple(a, b, c);
            && First(Sextet1(t), Sextet2(t)) == a
            && Second(Sextet2(t), Sextet3(t)) == b
            && Third(Sextet3(t), Sextet4(t)) == c
  {
  }

  /** The sextets of octets that sextets gave: the last one of a short group comes back exactly when its
      bits beyond the octets are zero. */
  lemma {:induction false} FirstRebuilds(one: octet, two: octet, b: octet, c: octet)
    requires one < 64 && two < 64
    ensures Sextet1(Triple(First(one, two), b, c)) == one
    ensures Sextet2(Triple(First(one, two), 0, 0)) == two <==> two & 15 == 0
  {
  }

  lemma {:induction false} SecondRebuilds(one: octet, two: octet, three: octet, c: octet)
    requires one < 64 && two < 64 && three < 64
    ensures Sextet2(Triple(First(one, two), Second(two, three), c)) == two
    ensures Sextet3(Triple(First(one, two), Second(two, three), 0)) == three <==> three & 3 == 0
  {
  }

  lemma {:induction false} ThirdRebuilds(two: octet, three: octet, four: octet, a: octet)
    requires two < 64 && three < 64 && four < 64
    ensures var t := Triple(a, Second(two, three), Third(three, four)); Sextet3(t) == three && Sextet4(t) == four
  {
  }

  lemma {:induction false} OctetsRebuild(one: octet, two: octet, three: octet, four: octet)
    requires one < 64 && two < 64 && three < 64 && four < 64
    ensures var t := Triple(First(one, two), Second(two, three), Third(three, four));
            Sextet1(t) == one && Sextet2(t) == two && Sextet3(t) == three && Sextet4(t) == four
    ensures var t := Triple(First(one, two), Second(two, three), 0);
            Sextet1(t) == one && Sextet2(t) == two && (Sextet3(t) == three <==> three & 3 == 0)
    ensures var t := Triple(First(one, two), 0, 0);
            Sextet1(t) == one && (Sextet2(t) == two <==> two & 15 == 0)
  {
    hide Triple, First, Second, Third, Sextet1, Sextet2, Sextet3, Sextet4;
    FirstRebuilds(one, two, Second(two, three), Third(three, four));
    FirstRebuilds(one, two, Second(two, three), 0);
    FirstRebuilds(one, two, 0, 0);
    SecondRebuilds(one, two, three, Third(three, four));
    SecondRebuilds(one, two, three, 0);
    ThirdRebuilds(two, three, four, First(one, two));
  }

  // ---------- What the codec computes ----------

  function Quad(a: octet, b: octet, c: octet): (r: seq<octet>)
    ensures |r| == 4
  {
    var t := Triple(a, b, c);
    [EncTable(Sextet1(t)), EncTable(Sextet2(t)), EncTable(Sextet3(t)), EncTable(Sextet4(t))]
  }

  function Encode(data: seq<octet>): seq<octet> {
    if data == [] then []
    else if |data| == 1 then Quad(data[0], 0, 0)[..2]
    else if |data| == 2 then Quad(data[0], data[1], 0)[..3]
    else Quad(data[0], data[1], data[2]) + Encode(data[3..])
  }

  /** The octets of a string whose characters are all valid and whose length is not 1 modulo 4. */
  function Octets(str: seq<octet>): seq<octet> {
    if |str| < 2 then []
    else if |str| == 2 then [First(DecTable(str[0]), DecTable(str[1]))]
    else if |str| == 3 then
      [First(DecTable(str[0]), DecTable(str[1])), Second(DecTable(str[1]), DecTable(str[2]))]
    else
      [First(DecTable(str[0]), DecTable(str[1])), Second(DecTable(str[1]), DecTable(str[2])),
       Third(DecTable(str[2]), DecTable(str[3]))] + Octets(str[4..])
  }

  predicate AllValid(str: seq<octet>) {
    forall k :: 0 <= k < |str| ==> Valid(str[k])
  }

  /** The first character outside the alphabet. */
  predicate FirstBad(str: seq<octet>, at: nat) {
    at < |str| && !Valid(str[at]) && forall k :: 0 <= k < at ==> Valid(str[k])
  }

  // ---------- Properties ----------

  /** The length of an encoded string: four characters for three octets, rounded up. */
  lemma {:induction false} EncodedLength(data: seq<octet>)
    ensures |Encode(data)| == (4 * |data| + 2) / 3 && |Encode(data)| % 4 != 1 && AllValid(Encode(data))
    decreases |data|
  {
    hide EncTable, DecTable, Triple, Sextet1, Sextet2, Sextet3, Sextet4;
    forall s: octet | s < 64 ensures Valid(EncTable(s)) {
      TablesInvert(s);
    }
    if |data| >= 3 { EncodedLength(data[3..]); }
  }

  lemma {:induction false} DecodedLength(str: seq<octet>)
    requires |str| % 4 != 1
    ensures |Octets(str)| == |str| * 3 / 4
    decreases |str|
  {
    hide DecTable, First, Second, Third;
    if |str| >= 4 { DecodedLength(str[4..]); }
  }

  /** Decoding what was encoded gives the octets back, for every byte string. */
  lemma {:induction false} RoundTrip(data: seq<octet>)
    ensures Octets(Encode(data)) == data
    decreases |data|
  {
    hide EncTable, DecTable, Triple, Sextet1, Sextet2, Sextet3, Sextet4, First, Second, Third;
    if data != [] {
      var a, b, c := data[0], if |data| > 1 then data[1] else 0, if |data| > 2 then data[2] else 0;
      SextetsRebuild(a, b, c);
      var t := Triple(a, b, c);
      TablesInvert(Sextet1(t));
      TablesInvert(Sextet2(t));
      TablesInvert(Sextet3(t));
      TablesInvert(Sextet4(t));
      if |data| >= 3 {
        RoundTrip(data[3..]);
        assert Encode(data)[4..] == Encode(data[3..]);
      }
    }
  }

  function Respell(str: seq<octet>): (r: seq<octet>)
    ensures |r| == |str| && forall k :: 0 <= k < |str| ==> r[k] == Canonical(str[k])
  {
    seq(|str|, k requires 0 <= k < |str| => Canonical(str[k]))
  }

  /** The `+` and `/` of section 4 and the `-` and `_` of section 5 of RFC 4648 decode alike. */
  lemma {:induction false} SpellingsAgree(str: seq<octet>)
    requires AllValid(str)
    ensures Octets(Respell(str)) == Octets(str) && AllValid(Respell(str))
    decreases |str|
  {
    hide Canonical, DecTable, First, Second, Third;
    var r := Respell(str);
    forall k | 0 <= k < |str| ensures DecTable(r[k]) == DecTable(str[k]) && Valid(r[k]) {
      CanonicalInverts(str[k]);
    }
    if |str| >= 4 {
      SpellingsAgree(str[4..]);
      assert Respell(str[4..]) == r[4..];
    }
  }

  /** The bits of the last character that belong to no octet are zero. */
  predicate NoStrayBits(str: seq<octet>) {
    && (|str| % 4 == 2 ==> DecTable(str[|str| - 1]) & 15 == 0)
    && (|str| % 4 == 3 ==> DecTable(str[|str| - 1]) & 3 == 0)
  }

  /** Encoding what was decoded gives the string back, in its canonical spelling, exactly when it has no
      stray bits: otherwise several strings decode to the same octets. */
  lemma {:induction false} ReencodesIff(str: seq<octet>)
    requires AllValid(str) && |str| % 4 != 1
    ensures Encode(Octets(str)) == Respell(str) <==> NoStrayBits(str)
    decreases |str|
  {
    hide Canonical, Valid, EncTable, DecTable, Encode, Octets, NoStrayBits;
    if |str| >= 4 {
      ReencodesIff(str[4..]);
      FullGroup(str);
      SameTail(str);
      var r := Respell(str);
      assert r == r[..4] + r[4..] && Respell(str[4..]) == r[4..];
    } else if str != [] {
      Respelled(str);
      LastGroup(str, Respell(str));
    } else {
      NoOctets();
      NothingEncoded();
      assert Respell([]) == [];
      assert NoStrayBits([]) by { SameTail([]); }
    }
  }

  lemma {:induction false} SameTail(str: seq<octet>)
    ensures |str| >= 4 ==> (NoStrayBits(str) <==> NoStrayBits(str[4..]))
    ensures str == [] ==> NoStrayBits(str)
  {
  }

  lemma {:induction false} NothingEncoded()
    ensures Encode([]) == []
  {
  }

  lemma {:induction false} Respelled(str: seq<octet>)
    requires AllValid(str)
    ensures forall k :: 0 <= k < |str| ==> DecTable(str[k]) < 64 && EncTable(DecTable(str[k])) == Respell(str)[k]
  {
    hide Canonical, EncTable, DecTable;
    forall k | 0 <= k < |str| ensures EncTable(DecTable(str[k])) == Respell(str)[k] {
      CanonicalInverts(str[k]);
    }
  }

  /** A full group of four characters always comes back, respelled. */
  lemma {:induction false} FullGroup(str: seq<octet>)
    requires |str| >= 4 && AllValid(str)
    ensures Encode(Octets(str)) == Respell(str)[..4] + Encode(Octets(str[4..]))
  {
    hide Canonical, EncTable, DecTable, Triple, Sextet1, Sextet2, Sextet3, Sextet4, First, Second, Third;
    Respelled(str);
    OctetsRebuild(DecTable(str[0]), DecTable(str[1]), DecTable(str[2]), DecTable(str[3]));
    assert Octets(str)[3..] == Octets(str[4..]);
  }

  lemma {:induction false} EncInjective(a: octet, b: octet)
    requires a < 64 && b < 64
    ensures EncTable(a) == EncTable(b) <==> a == b
  {
    TablesInvert(a);
    TablesInvert(b);
  }

  lemma {:induction false} LastGroup(str: seq<octet>, r: seq<octet>)
    requires 2 <= |str| <= 3 && AllValid(str) && r == Respell(str)
    requires forall k :: 0 <= k < |str| ==> EncTable(DecTable(str[k])) == r[k]
    ensures Encode(Octets(str)) == r <==> NoStrayBits(str)
  {
    hide Canonical, EncTable, DecTable, Triple, Sextet1, Sextet2, Sextet3, Sextet4, First, Second, Third;
    var one, two, three := DecTable(str[0]), DecTable(str[1]), if |str| > 2 then DecTable(str[2]) else 0;
    OctetsRebuild(one, two, three, 0);
    EncInjective(Sextet2(Triple(First(one, two), 0, 0)), two);
    EncInjective(Sextet3(Triple(First(one, two), Second(two, three), 0)), three);
    var e := Encode(Octets(str));
    assert e == r <==> e[|str| - 1] == r[|str| - 1];
  }

  // ---------- The loops ----------

  /** `base64urlencode`. */
  method Base64UrlEncode(data: seq<octet>) returns (encoded: seq<octet>)
    ensures encoded == Encode(data)
  {
    hide Quad, Encode;
    NothingEncoded();
    encoded := [];
    var i := 0;
    while i < |data|
      invariant 0 <= i <= |data| && (i % 3 == 0 || i == |data|)
      invariant i % 3 == 0 ==> encoded + Encode(data[i..]) == Encode(data)
      invariant i % 3 != 0 ==> |encoded| >= 3 && encoded[..|encoded| - (3 - i % 3)] == Encode(data)
    {
      ghost var start, was := i, encoded;
      var a := data[i];
      i := i + 1;
      var b: octet := 0;
      if i < |data| { b := data[i]; i := i + 1; }
      var c: octet := 0;
      if i < |data| { c := data[i]; i := i + 1; }
      encoded := encoded + Quad(a, b, c);
      EncodeStep(data, start, was, i);
    }
    assert data[i..] == [];
    var mod := |data| % 3;
    if mod != 0 {
      encoded := encoded[..|encoded| - (3 - mod)];
    }
  }

  lemma {:induction false} EncodeStep(data: seq<octet>, start: nat, was: seq<octet>, next: nat)
    requires start < |data| && was + Encode(data[start..]) == Encode(data)
    requires next == if start + 3 <= |data| then start + 3 else |data|

    ensures var b := if start + 1 < |data| then data[start + 1] else 0;
            var c := if start + 2 < |data| then data[start + 2] else 0;
            var q := Quad(data[start], b, c);
            if start + 3 <= |data| then (was + q) + Encode(data[next..]) == Encode(data)
            else (was + q)[..|was| + 4 - (3 - (next - start))] == Encode(data)
  {
    hide Quad;
    var rest := data[start..];
    if start + 3 <= |data| {
      assert rest[3..] == data[start + 3..];
    } else {
      assert |rest| == next - start;
    }
  }

  /** One turn of the decoding loop: two to four characters become one to three octets. */
  method DecodeGroup(group: seq<octet>, bin: array<octet>, out: nat) returns (r: Result<nat>)
    requires 2 <= |group| <= 4 && out + |group| - 1 <= bin.Length
    modifies bin
    ensures |Octets(group)| == |group| - 1
    ensures if AllValid(group) then
              && r == Ok(|group| - 1) && (forall k :: 0 <= k < |group| - 1 ==> bin[out + k] == Octets(group)[k])
              && (forall k :: 0 <= k < out || out + |group| - 1 <= k < bin.Length ==> bin[k] == old(bin[k]))
            else r.Err? && r.error.BadChar? && FirstBad(group, r.error.offset) && r.error.c == group[r.error.offset]
  {
    hide DecTable, First, Second, Third, Valid, AllValid, FirstBad, Octets;
    GroupOctets(group);
    ValidUpTo63(group);
    var one := DecTable(group[0]);
    if one > 63 { BadAt(group, 0); return Err(BadChar(group[0], 0)); }
    var two := DecTable(group[1]);
    if two > 63 { BadAt(group, 1); return Err(BadChar(group[1], 1)); }
    bin[out] := First(one, two);
    if |group| == 2 { return Ok(1); }
    var three := DecTable(group[2]);
    if three > 63 { BadAt(group, 2); return Err(BadChar(group[2], 2)); }
    bin[out + 1] := Second(two, three);
    if |group| == 3 { return Ok(2); }
    var four := DecTable(group[3]);
    if four > 63 { BadAt(group, 3); return Err(BadChar(group[3], 3)); }
    bin[out + 2] := Third(three, four);
    return Ok(3);
  }

  lemma {:induction false} ValidUpTo63(group: seq<octet>)
    ensures forall k :: 0 <= k < |group| ==> (Valid(group[k]) <==> !(DecTable(group[k]) > 63))
  {
  }

  lemma {:induction false} BadAt(group: seq<octet>, k: nat)
    requires k < |group| && !Valid(group[k]) && forall j :: 0 <= j < k ==> Valid(group[j])
    ensures FirstBad(group, k) && !AllValid(group)
  {
  }

  lemma {:induction false} GroupOctets(group: seq<octet>)
    requires 2 <= |group| <= 4
    ensures (forall k :: 0 <= k < |group| ==> Valid(group[k])) ==> AllValid(group)
    ensures Octets(group)
         == [First(DecTable(group[0]), DecTable(group[1]))]
          + (if |group| > 2 then [Second(DecTable(group[1]), DecTable(group[2]))] else [])
          + (if |group| > 3 then [Third(DecTable(group[2]), DecTable(group[3]))] else [])
  {
    hide DecTable, First, Second, Third;
    if |group| == 4 { assert group[4..] == []; }
  }

  /** `base64urldecode`: the octets go to the start of `bin`, whose rest stays as it is; a string that
      cannot be decoded is reported at its first invalid character. */
  method Base64UrlDecode(str: seq<octet>, bin: array<octet>) returns (r: Result<nat>)
    modifies bin
    ensures bin.Length < |str| * 3 / 4 ==> r == Err(NoSpace)
    ensures bin.Length >= |str| * 3 / 4 && |str| % 4 == 1 ==> r == Err(BadSize)
    ensures bin.Length >= |str| * 3 / 4 && |str| % 4 != 1 ==>
              if AllValid(str) then
                r == Ok(|str| * 3 / 4) && bin[..] == Octets(str) + old(bin[..])[|str| * 3 / 4..]
              else r.Err? && r.error.BadChar? && FirstBad(str, r.error.offset) && r.error.c == str[r.error.offset]
  {
    hide Octets, Valid, AllValid, FirstBad;
    if bin.Length < |str| * 3 / 4 { return Err(NoSpace); }
    if |str| % 4 == 1 { return Err(BadSize); }
    ghost var was := bin[..];
    NoOctets();
    assert AllValid(str[..0]) by { AllOfNothing(); }
    var in_, out := 0, 0;
    while in_ < |str|
      invariant 0 <= in_ <= |str| && (in_ % 4 == 0 || in_ == |str|) && out == in_ * 3 / 4
      invariant AllValid(str[..in_]) && bin[..out] == Octets(str[..in_]) && bin[out..] == was[out..]
      decreases |str| - in_
    {
      var next := if in_ + 4 <= |str| then in_ + 4 else |str|;
      var group := str[in_..next];
      GroupBounds(|str|, in_, next);
      ghost var before := bin[..];
      var n := DecodeGroup(group, bin, out);
      JoinGroups(str, in_, next);
      if n.Err? {
        return Err(BadChar(n.error.c, in_ + n.error.offset));
      }
      Spliced(was, before, bin[..], out, Octets(group));
      in_, out := next, out + n.value;
    }
    assert str[..in_] == str;
    assert bin[..] == bin[..out] + bin[out..];
    return Ok(out);
  }

  lemma {:induction false} Spliced(was: seq<octet>, before: seq<octet>, now: seq<octet>, out: nat, more: seq<octet>)
    requires |was| == |before| == |now| && out + |more| <= |now| && before[out..] == was[out..]
    requires forall k :: 0 <= k < |more| ==> now[out + k] == more[k]
    requires forall k :: 0 <= k < out || out + |more| <= k < |now| ==> now[k] == before[k]
    ensures now[..out + |more|] == before[..out] + more && now[out + |more|..] == was[out + |more|..]
  {
    assert was[out + |more|..] == was[out..][|more|..] && before[out + |more|..] == before[out..][|more|..];
  }

  lemma {:induction false} AllOfNothing()
    ensures AllValid([])
  {
  }

  lemma {:induction false} NoOctets()
    ensures Octets([]) == []
  {
  }

  lemma {:induction false} GroupBounds(len: nat, i: nat, next: nat)
    requires i < len && i % 4 == 0 && len % 4 != 1 && next == if i + 4 <= len then i + 4 else len
    ensures 2 <= next - i <= 4 && (next % 4 == 0 || next == len)
    ensures i * 3 / 4 + (next - i - 1) == next * 3 / 4 <= len * 3 / 4
  {
    var q, n, l := i / 4, next / 4, len / 4;
    assert i == 4 * q && next == 4 * n + next % 4 && len == 4 * l + len % 4;
    assert i * 3 / 4 == 3 * q && next * 3 / 4 == 3 * n + next % 4 * 3 / 4;
  }

  /** A decoded prefix and the group after it. */
  lemma {:induction false} JoinGroups(str: seq<octet>, i: nat, next: nat)
    requires i <= next <= |str| && i % 4 == 0 && AllValid(str[..i])
    ensures Octets(str[..next]) == Octets(str[..i]) + Octets(str[i..next])
    ensures AllValid(str[i..next]) ==> AllValid(str[..next])
    ensures forall k: nat :: FirstBad(str[i..next], k) ==>
        FirstBad(str, i + k) && str[i + k] == str[i..next][k] && !AllValid(str)
  {
    hide Octets, Valid;
    OctetsSplit(str[..next], i);
    assert str[..next][..i] == str[..i] && str[..next][i..] == str[i..next];
    forall k | 0 <= k < i ensures Valid(str[k]) {
      assert str[..i][k] == str[k];
    }
    forall k | i <= k < next ensures str[i..next][k - i] == str[k] {
    }
  }

  /** Whole groups of four characters decode on their own. */
  lemma {:induction false} OctetsSplit(str: seq<octet>, i: nat)
    requires i <= |str| && i % 4 == 0
    ensures Octets(str) == Octets(str[..i]) + Octets(str[i..])
    decreases |str|
  {
    hide DecTable, First, Second, Third;
    if i == 0 {
      assert str[..0] == [] && str[0..] == str;
    } else {
      OctetsSplit(str[4..], i - 4);
      assert str[4..][..i - 4] == str[..i][4..] && str[4..][i - 4..] == str[i..];
    }
  }
}
