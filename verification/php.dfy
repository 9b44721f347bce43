/** The two PHP built-ins whose exact meaning shapes the sitemap's output:
    `empty()` and `implode()`. */
module Php {
  import opened Results

  /** `empty($s)` for a nullable string: null, "" and "0" are all empty. */
  predicate EmptyString(s: Option<string>)
  {
    s.None? || s.value == "" || s.value == "0"
  }

  /** `empty($a)` for a nullable array: null and the empty array. */
  predicate EmptyArray<T>(a: Option<seq<T>>)
  {
    a.None? || |a.value| == 0
  }

  /** PHP's `empty()` is not "has no characters": "0" is empty as well, while
      "00", "0.0", " " and "false" are not. */
  lemma EmptyStringCases()
    ensures EmptyString(None) && EmptyString(Some("")) && EmptyString(Some("0"))
    ensures !EmptyString(Some("00")) && !EmptyString(Some("0.0"))
    ensures !EmptyString(Some(" ")) && !EmptyString(Some("false"))
  {
  }

  /** An array is empty only when it has no elements, whatever the elements are. */
  lemma EmptyArrayCases()
    ensures EmptyArray<string>(None) && EmptyArray<string>(Some([]))
    ensures !EmptyArray(Some([""])) && !EmptyArray(Some(["0"]))
  {
  }

  /** `implode($sep, $pieces)`: the pieces in order with `sep` between neighbours. */
  function Implode(sep: string, pieces: seq<string>): string
  {
    if |pieces| == 0 then ""
    else if |pieces| == 1 then pieces[0]
    else pieces[0] + sep + Implode(sep, pieces[1..])
  }

  /** The joined string is empty for no pieces, starts with the first piece
      and ends with the last. */
  lemma {:induction false} ImplodeEnds(sep: string, pieces: seq<string>)
    ensures |pieces| == 0 ==> Implode(sep, pieces) == ""
    ensures |pieces| > 0 ==> pieces[0] <= Implode(sep, pieces)
    ensures |pieces| > 0 ==> EndsWith(Implode(sep, pieces), pieces[|pieces| - 1])
    decreases |pieces|
  {
    if |pieces| > 1 {
      var rest := Implode(sep, pieces[1..]);
      var r := Implode(sep, pieces);
      ImplodeEnds(sep, pieces[1..]);
      assert pieces[1..][|pieces[1..]| - 1] == pieces[|pieces| - 1];
      assert r == pieces[0] + sep + rest;
      assert r[|r| - |rest|..] == rest;
    }
  }

  predicate EndsWith(s: string, suffix: string)
  {
    |suffix| <= |s| && s[|s| - |suffix|..] == suffix
  }

  /** Appending one more piece appends the separator and the piece. */
  lemma {:induction false} ImplodeSnoc(sep: string, pieces: seq<string>, p: string)
    requires |pieces| > 0
    ensures Implode(sep, pieces + [p]) == Implode(sep, pieces) + sep + p
    decreases |pieces|
  {
    var ps := pieces + [p];
    assert ps[0] == pieces[0];
    if |pieces| == 1 {
      assert ps[1..] == [p];
    } else {
      assert ps[1..] == pieces[1..] + [p];
      ImplodeSnoc(sep, pieces[1..], p);
    }
  }

  /** The joined string is as long as the pieces plus one separator per gap. */
  lemma {:induction false} ImplodeLength(sep: string, pieces: seq<string>)
    requires |pieces| > 0
    ensures |Implode(sep, pieces)| == TotalLength(pieces) + (|pieces| - 1) * |sep|
    decreases |pieces|
  {
    if |pieces| > 1 {
      ImplodeLength(sep, pieces[1..]);
    }
  }

  function TotalLength(pieces: seq<string>): nat
  {
    if pieces == [] then 0 else |pieces[0]| + TotalLength(pieces[1..])
  }

  /** `implode` written as a left-to-right loop: the separator goes before
      every piece but the first. */
  method ImplodeLoop(sep: string, pieces: seq<string>) returns (r: string)
    ensures r == Implode(sep, pieces)
  {
    r := "";
    var i := 0;
    while i < |pieces|
      invariant 0 <= i <= |pieces|
      invariant r == Implode(sep, pieces[..i])
    {
      if i == 0 {
        assert pieces[..1] == [pieces[0]];
        r := pieces[0];
      } else {
        assert pieces[..i + 1] == pieces[..i] + [pieces[i]];
        ImplodeSnoc(sep, pieces[..i], pieces[i]);
        r := r + sep + pieces[i];
      }
      i := i + 1;
    }
    assert pieces[..i] == pieces;
  }

  /** Keywords `["a", "b", "c"]` come out as `"a, b, c"`. */
  lemma ImplodeKeywordsExample()
    ensures Implode(", ", ["a", "b", "c"]) == "a, b, c"
  {
    var ks := ["a", "b", "c"];
    assert ks[1..] == ["b", "c"];
    assert ks[1..][1..] == ["c"];
  }
}
