/** parse_form_data, which config_portal.py and setup_portal.py both carry
    (the two copies are the same): an application/x-www-form-urlencoded body
    turned into a dictionary of parameters. Keys are kept as sent; values have
    '+' turned into a space and then every "%XY" with two hex digits turned
    into the character with that code. */
module FormData {

  import opened Optional
  import opened Strings
  import opened Wire

  type Params = map<string, string>

  predicate IsHexDigit(c: char) {
    '0' <= c <= '9' || 'a' <= c <= 'f' || 'A' <= c <= 'F'
  }

  /** int(c, 16) for one hex digit. */
  function HexValue(c: char): (d: nat)
    requires IsHexDigit(c)
    ensures d < 16
  {
    if '0' <= c <= '9' then c as int - '0' as int
    else if 'a' <= c <= 'f' then c as int - 'a' as int + 10
    else c as int - 'A' as int + 10
  }

  /** The upper-case hex digit of a value below 16. */
  function HexChar(d: nat): (c: char)
    requires d < 16
    ensures IsHexDigit(c) && HexValue(c) == d
  {
    if d < 10 then ('0' as int + d) as char else ('A' as int + d - 10) as char
  }

  /** value.replace('+', ' '). */
  function SpaceForPlus(v: string): (r: string)
    ensures |r| == |v|
    ensures forall i :: 0 <= i < |v| ==> r[i] == (if v[i] == '+' then ' ' else v[i])
  {
    seq(|v|, i requires 0 <= i < |v| => if v[i] == '+' then ' ' else v[i])
  }

  /** The decoding loop of parse_form_data: a '%' with at least two characters
      after it that are hex digits stands for the character with that code;
      every other character is kept, a '%' included. */
  function PercentDecode(v: string): (r: string)
    ensures |r| <= |v|
    decreases |v|
  {
    if v == [] then []
    else if |v| >= 3 && v[0] == '%' && IsHexDigit(v[1]) && IsHexDigit(v[2]) then
      [(16 * HexValue(v[1]) + HexValue(v[2])) as char] + PercentDecode(v[3..])
    else [v[0]] + PercentDecode(v[1..])
  }

  /** A value without '%' decodes to itself. */
  lemma {:induction false} PercentDecodePlain(v: string)
    requires '%' !in v
    ensures PercentDecode(v) == v
    decreases |v|
  {
    if v != [] {
      PercentDecodePlain(v[1..]);
      assert v == [v[0]] + v[1..];
    }
  }

  /** The decoded value of a raw form value. */
  function FormValue(raw: string): (r: string)
    ensures |r| <= |raw|
  {
    PercentDecode(SpaceForPlus(raw))
  }

  /** The position of the first occurrence of c in s. */
  function FirstIndex(s: string, c: char): (i: nat)
    requires c in s
    ensures i < |s| && s[i] == c && c !in s[..i]
  {
    if s[0] == c then 0
    else
      assert c in s[1..] by {
        var j :| 0 <= j < |s| && s[j] == c;
        assert s[1..][j - 1] == c;
      }
      var j := FirstIndex(s[1..], c);
      assert s[..j + 1] == [s[0]] + s[1..][..j];
      j + 1
  }

  /** pair.split('=', 1) for a pair holding '=': the key before the first '='
      and the raw value after it. A pair without '=' contributes nothing. */
  function PairParts(pair: string): (r: Option<(string, string)>)
    ensures r.None? <==> '=' !in pair
    ensures r.Some? ==> r.value.0 + "=" + r.value.1 == pair && '=' !in r.value.0
  {
    if '=' in pair then
      var i := FirstIndex(pair, '=');
      assert pair[..i] + "=" + pair[i + 1..] == pair;
      Some((pair[..i], pair[i + 1..]))
    else None
  }

  /** The key a pair sets, if any. */
  function PairKey(pair: string): Option<string> {
    if PairParts(pair).Some? then Some(PairParts(pair).value.0) else None
  }

  /** The parameters of a list of pairs: each pair with '=' sets its key, a
      later pair overriding an earlier one. */
  function ParamsFrom(pairs: seq<string>): Params
    decreases |pairs|
  {
    if pairs == [] then map[]
    else
      var params := ParamsFrom(pairs[..|pairs| - 1]);
      match PairParts(pairs[|pairs| - 1])
      case None => params
      case Some((key, raw)) => params[key := FormValue(raw)]
  }

  /** parse_form_data's result for a body. */
  function ParamsOf(data: string): Params {
    ParamsFrom(Split(data, '&'))
  }

  /** Decoding from an escape "%XY": its character, then the rest. */
  lemma PercentDecodeEscape(v: string, i: nat)
    requires i + 2 < |v| && v[i] == '%' && IsHexDigit(v[i + 1]) && IsHexDigit(v[i + 2])
    ensures PercentDecode(v[i..]) == [(16 * HexValue(v[i + 1]) + HexValue(v[i + 2])) as char] + PercentDecode(v[i + 3..])
  {
    var rest := v[i..];
    assert rest[0] == '%' && rest[1] == v[i + 1] && rest[2] == v[i + 2];
    assert rest[3..] == v[i + 3..];
  }

  /** Decoding from any other character: that character, then the rest. */
  lemma PercentDecodeLiteral(v: string, i: nat)
    requires i < |v| && !(v[i] == '%' && i + 2 < |v| && IsHexDigit(v[i + 1]) && IsHexDigit(v[i + 2]))
    ensures PercentDecode(v[i..]) == [v[i]] + PercentDecode(v[i + 1..])
  {
    var rest := v[i..];
    assert rest[0] == v[i] && rest[1..] == v[i + 1..];
    if |rest| >= 3 {
      assert rest[1] == v[i + 1] && rest[2] == v[i + 2];
    }
  }

  /** The decoding loop over one raw value. */
  method DecodeValue(raw: string) returns (decoded: string)
    ensures decoded == FormValue(raw)
  {
    var value := SpaceForPlus(raw);
    ghost var whole := PercentDecode(value);
    var i := 0;
    decoded := "";
    assert value[0..] == value;
    while i < |value|
      invariant 0 <= i <= |value|
      invariant decoded + PercentDecode(value[i..]) == whole
    {
      if value[i] == '%' && i + 2 < |value| && IsHexDigit(value[i + 1]) && IsHexDigit(value[i + 2]) {
        var c := (16 * HexValue(value[i + 1]) + HexValue(value[i + 2])) as char;
        PercentDecodeEscape(value, i);
        AppendAssoc(decoded, [c], PercentDecode(value[i + 3..]));
        decoded := decoded + [c];
        i := i + 3;
      } else {
        PercentDecodeLiteral(value, i);
        AppendAssoc(decoded, [value[i]], PercentDecode(value[i + 1..]));
        decoded := decoded + [value[i]];
        i := i + 1;
      }
    }
    assert value[i..] == [];
  }

  /** parse_form_data. */
  method ParseFormData(data: string) returns (params: Params)
    ensures params == ParamsOf(data)
  {
    params := map[];
    var pairs := Split(data, '&');
    for k := 0 to |pairs|
      invariant params == ParamsFrom(pairs[..k])
    {
      assert pairs[..k + 1][..k] == pairs[..k];
      var pair := pairs[k];
      if '=' in pair {
        var key, value := PairParts(pair).value.0, PairParts(pair).value.1;
        var decoded := DecodeValue(value);
        params := params[key := decoded];
      }
    }
    assert pairs[..|pairs|] == pairs;
  }

  /** The keys after one more pair: the earlier keys and the pair's own. */
  lemma ParamsFromKeyStep(pairs: seq<string>, k: nat, key: string)
    requires 0 < k <= |pairs|
    ensures key in ParamsFrom(pairs[..k]) <==> key in ParamsFrom(pairs[..k - 1]) || PairKey(pairs[k - 1]) == Some(key)
  {
    assert pairs[..k][..k - 1] == pairs[..k - 1];
    assert pairs[..k][k - 1] == pairs[k - 1];
  }

  /** A key is present after the first k pairs exactly when one of them sets it. */
  lemma {:induction false} ParamsFromKeysUpTo(pairs: seq<string>, key: string, k: nat)
    requires k <= |pairs|
    ensures key in ParamsFrom(pairs[..k]) <==> exists i :: 0 <= i < k && PairKey(pairs[i]) == Some(key)
    decreases k
  {
    if k > 0 {
      ParamsFromKeysUpTo(pairs, key, k - 1);
      ParamsFromKeyStep(pairs, k, key);
      if PairKey(pairs[k - 1]) == Some(key) {
        assert key in ParamsFrom(pairs[..k]);
      } else if key in ParamsFrom(pairs[..k - 1]) {
        var i :| 0 <= i < k - 1 && PairKey(pairs[i]) == Some(key);
        assert key in ParamsFrom(pairs[..k]);
      } else {
        assert key !in ParamsFrom(pairs[..k]);
      }
    }
  }

  /** A key is present exactly when some pair sets it. */
  lemma ParamsFromKeys(pairs: seq<string>, key: string)
    ensures key in ParamsFrom(pairs) <==> exists i :: 0 <= i < |pairs| && PairKey(pairs[i]) == Some(key)
  {
    ParamsFromKeysUpTo(pairs, key, |pairs|);
    assert pairs[..|pairs|] == pairs;
  }

  /** The value of a key is the one the last pair setting it carries. */
  lemma {:induction false} ParamsFromLast(pairs: seq<string>, key: string, i: nat)
    requires i < |pairs| && PairKey(pairs[i]) == Some(key)
    requires forall j :: i < j < |pairs| ==> PairKey(pairs[j]) != Some(key)
    ensures key in ParamsFrom(pairs)
    ensures ParamsFrom(pairs)[key] == FormValue(PairParts(pairs[i]).value.1)
    decreases |pairs|
  {
    var init := pairs[..|pairs| - 1];
    var n := |pairs| - 1;
    if i < n {
      assert init[i] == pairs[i];
      assert forall j :: i < j < |init| ==> init[j] == pairs[j];
      ParamsFromLast(init, key, i);
    }
  }

  // ---------------------------------------------------------------------
  // Encoding partner: what a browser sends for a form

  /** Characters a form submission sends as they are. */
  predicate IsUnreserved(c: char) {
    'a' <= c <= 'z' || 'A' <= c <= 'Z' || '0' <= c <= '9' || c == '*' || c == '-' || c == '.' || c == '_'
  }

  /** One character of a value as a browser encodes it: unreserved characters
      as they are, a space as '+', anything else as "%XY". */
  function EncodeChar(c: char): (r: string)
    requires c as int < 256
    ensures '&' !in r && '=' !in r
  {
    if IsUnreserved(c) then [c]
    else if c == ' ' then "+"
    else ['%', HexChar(c as int / 16), HexChar(c as int % 16)]
  }

  function FormEncode(s: string): (r: string)
    requires IsLatin1(s)
    ensures '&' !in r && '=' !in r
    decreases |s|
  {
    if s == [] then "" else EncodeChar(s[0]) + FormEncode(s[1..])
  }

  lemma SpaceForPlusAppend(a: string, b: string)
    ensures SpaceForPlus(a + b) == SpaceForPlus(a) + SpaceForPlus(b)
  {
  }

  /** Decoding one encoded character in front of anything gives that character back. */
  lemma DecodeChar(c: char, rest: string)
    requires c as int < 256
    ensures PercentDecode(SpaceForPlus(EncodeChar(c)) + rest) == [c] + PercentDecode(rest)
  {
    var e := SpaceForPlus(EncodeChar(c));
    if IsUnreserved(c) || c == ' ' {
      assert e == [c];
      assert ([c] + rest)[1..] == rest;
    } else {
      var hi, lo := HexChar(c as int / 16), HexChar(c as int % 16);
      assert e == ['%', hi, lo];
      var v := e + rest;
      assert v[0] == '%' && v[1] == hi && v[2] == lo && v[3..] == rest;
      assert (16 * HexValue(hi) + HexValue(lo)) as char == c;
    }
  }

  /** Decoding undoes the browser's encoding, for every Latin-1 value. */
  lemma {:induction false} FormValueRoundTrip(s: string)
    requires IsLatin1(s)
    ensures FormValue(FormEncode(s)) == s
    decreases |s|
  {
    if s != [] {
      assert IsLatin1(s[1..]) by {
        forall i | 0 <= i < |s[1..]| ensures s[1..][i] as int < 256 {
          assert s[1..][i] == s[i + 1];
        }
      }
      FormValueRoundTrip(s[1..]);
      SpaceForPlusAppend(EncodeChar(s[0]), FormEncode(s[1..]));
      DecodeChar(s[0], SpaceForPlus(FormEncode(s[1..])));
      assert s == [s[0]] + s[1..];
    }
  }

  /** Splitting a join of '&'-free pieces gives the pieces back. */
  lemma {:induction false} SplitJoin(pieces: seq<string>, sep: char)
    requires |pieces| >= 1
    requires forall i :: 0 <= i < |pieces| ==> sep !in pieces[i]
    ensures Split(Join(pieces, sep), sep) == pieces
    decreases |pieces|
  {
    if |pieces| == 1 {
      SplitNoSeparator(pieces[0], sep);
    } else {
      SplitJoin(pieces[1..], sep);
      SplitPrefix(pieces[0], Join(pieces[1..], sep), sep);
      assert [pieces[0]] + pieces[1..] == pieces;
    }
  }

  /** A form field a browser can send under this model: its name has no '&' or
      '=' and its value is Latin-1. */
  predicate Sendable(entry: (string, string)) {
    '&' !in entry.0 && '=' !in entry.0 && IsLatin1(entry.1)
  }

  function EncodePair(entry: (string, string)): (r: string)
    requires Sendable(entry)
    ensures '&' !in r
  {
    entry.0 + "=" + FormEncode(entry.1)
  }

  /** The body a browser sends for a list of form fields. */
  function EncodeForm(entries: seq<(string, string)>): (r: string)
    requires forall i :: 0 <= i < |entries| ==> Sendable(entries[i])
  {
    if entries == [] then ""
    else Join(seq(|entries|, i requires 0 <= i < |entries| => EncodePair(entries[i])), '&')
  }

  /** Each encoded pair sets its own field's name to its own value. */
  lemma EncodedPairParts(entry: (string, string))
    requires Sendable(entry)
    ensures PairParts(EncodePair(entry)) == Some((entry.0, FormEncode(entry.1)))
  {
    var p := EncodePair(entry);
    assert p[|entry.0|] == '=';
    var i := FirstIndex(p, '=');
    assert p[..i] == entry.0;
    assert p[i + 1..] == FormEncode(entry.1);
  }

  /** The pieces of an encoded form between the '&'s: one per field, each
      setting that field's name; a form with no field gives one empty piece. */
  lemma FormPairs(entries: seq<(string, string)>) returns (pairs: seq<string>)
    requires forall i :: 0 <= i < |entries| ==> Sendable(entries[i])
    ensures Split(EncodeForm(entries), '&') == pairs
    ensures entries == [] ==> pairs == [""]
    ensures entries != [] ==> |pairs| == |entries|
    ensures entries != [] ==> forall i :: 0 <= i < |entries| ==> pairs[i] == EncodePair(entries[i])
  {
    if entries == [] {
      pairs := [""];
      assert Split("", '&') == pairs;
    } else {
      pairs := seq(|entries|, i requires 0 <= i < |entries| => EncodePair(entries[i]));
      SplitJoin(pairs, '&');
    }
  }

  /** The keys the pieces of an encoded form set are the field names. */
  lemma FormKeys(entries: seq<(string, string)>, pairs: seq<string>)
    requires forall i :: 0 <= i < |entries| ==> Sendable(entries[i])
    requires entries == [] ==> pairs == [""]
    requires entries != [] ==> |pairs| == |entries| && forall i :: 0 <= i < |entries| ==> pairs[i] == EncodePair(entries[i])
    ensures forall key :: key in ParamsFrom(pairs) <==> exists i :: 0 <= i < |entries| && entries[i].0 == key
  {
    if entries == [] {
      assert PairKey(pairs[0]) == None;
    } else {
      forall i | 0 <= i < |entries| ensures PairKey(pairs[i]) == Some(entries[i].0) {
        EncodedPairParts(entries[i]);
      }
    }
    forall key ensures key in ParamsFrom(pairs) <==> exists i :: 0 <= i < |entries| && entries[i].0 == key {
      ParamsFromKeys(pairs, key);
    }
  }

  /** With distinct field names, each name maps to its own value. */
  lemma FormValues(entries: seq<(string, string)>, pairs: seq<string>)
    requires forall i :: 0 <= i < |entries| ==> Sendable(entries[i])
    requires forall i, j :: 0 <= i < j < |entries| ==> entries[i].0 != entries[j].0
    requires entries != [] ==> |pairs| == |entries| && forall i :: 0 <= i < |entries| ==> pairs[i] == EncodePair(entries[i])
    ensures forall i :: 0 <= i < |entries| ==> entries[i].0 in ParamsFrom(pairs) && ParamsFrom(pairs)[entries[i].0] == entries[i].1
  {
    forall i | 0 <= i < |entries| ensures entries[i].0 in ParamsFrom(pairs) && ParamsFrom(pairs)[entries[i].0] == entries[i].1 {
      EncodedPairParts(entries[i]);
      forall j | i < j < |pairs| ensures PairKey(pairs[j]) != Some(entries[i].0) {
        EncodedPairParts(entries[j]);
      }
      ParamsFromLast(pairs, entries[i].0, i);
      FormValueRoundTrip(entries[i].1);
    }
  }

  /** The round trip of a whole form: with distinct field names, the parsed
      parameters hold exactly the fields sent, each with its value. */
  lemma FormRoundTrip(entries: seq<(string, string)>)
    requires forall i :: 0 <= i < |entries| ==> Sendable(entries[i])
    requires forall i, j :: 0 <= i < j < |entries| ==> entries[i].0 != entries[j].0
    ensures forall key :: key in ParamsOf(EncodeForm(entries)) <==> exists i :: 0 <= i < |entries| && entries[i].0 == key
    ensures forall i :: 0 <= i < |entries| ==> ParamsOf(EncodeForm(entries))[entries[i].0] == entries[i].1
  {
    var pairs := FormPairs(entries);
    FormKeys(entries, pairs);
    FormValues(entries, pairs);
  }
}
