/** StringToMapListConverter.java: the command-line converter that turns "key=v1,v2" into
    a one-entry map from the key to its list of values. */
module MapListConverter {
  import opened JavaText
  import opened Assoc

  /** convert: the text before the first '=' maps to the text between the first and the
      second '=' split on ','. When the '=' split has fewer than two pieces the index
      [1] throws, the handler reports it, and the map comes back empty. */
  function Convert(value: string): (m: Assoc<seq<string>>)
    ensures |m| <= 1
    ensures '=' !in value ==> m == []
  {
    var parts := JavaSplit(value, '=');
    if |parts| < 2 then [] else [(parts[0], JavaSplit(parts[1], ','))]
  }

  /** The first piece of a split is the text before the first separator. */
  lemma {:induction false} SplitAllFirst(s: string, c: char)
    requires c in s
    ensures SplitAll(s, c)[0] == s[..IndexOf(s, c)]
    decreases |s|
  {
    if s[0] != c {
      assert c in s[1..] by {
        var i :| 0 <= i < |s| && s[i] == c;
        assert s[1..][i - 1] == c;
      }
      SplitAllFirst(s[1..], c);
      assert s[..IndexOf(s, c)] == [s[0]] + s[1..][..IndexOf(s[1..], c)];
    }
  }

  /** The key of the entry is the text before the first '='. */
  lemma ConvertKey(value: string)
    requires |Convert(value)| == 1
    ensures Convert(value)[0].0 == value[..IndexOf(value, '=')]
  {
    SplitAllFirst(value, '=');
  }

  /** A run of pieces that ends in a non-empty one survives the dropping of trailing
      empty strings. */
  lemma DropKeeps(parts: seq<string>, n: nat)
    requires 0 < n <= |parts| && parts[n - 1] != ""
    ensures |DropTrailingEmpty(parts)| >= n
    ensures DropTrailingEmpty(parts)[..n] == parts[..n]
  {
  }

  /** "k=v" followed by nothing or by '=' and more splits into k, v and possibly more. */
  lemma KeyValuePieces(k: string, v: string, tail: string)
    requires '=' !in k && '=' !in v && v != "" && (tail == [] || tail[0] == '=')
    ensures |JavaSplit(k + "=" + v + tail, '=')| >= 2
    ensures JavaSplit(k + "=" + v + tail, '=')[0] == k
    ensures JavaSplit(k + "=" + v + tail, '=')[1] == v
  {
    var s := k + "=" + v + tail;
    assert s == k + ['='] + (v + tail);
    assert s[|k|] == '=';
    SplitAllPiece(k, '=', v + tail);
    if tail == [] {
      assert v + tail == v;
      SplitAllNoSeparator(v, '=');
    } else {
      assert v + tail == v + ['='] + tail[1..];
      SplitAllPiece(v, '=', tail[1..]);
    }
    DropKeeps(SplitAll(s, '='), 2);
  }

  /** The key "k", an '=' and the values joined by ',' convert back to k and the values,
      provided no piece holds a separator and the last value is not empty (an empty one
      would be dropped as a trailing empty string). */
  lemma ConvertJoined(k: string, vs: seq<string>)
    requires '=' !in k && |vs| >= 1 && vs[|vs| - 1] != ""
    requires forall i :: 0 <= i < |vs| ==> '=' !in vs[i] && ',' !in vs[i]
    ensures Convert(k + "=" + Join(vs, ',')) == [(k, vs)]
  {
    var j := Join(vs, ',');
    JavaSplitJoin(vs, ',');
    JoinAvoids(vs, ',', '=');
    JoinLast(vs, ',');
    KeyValuePieces(k, j, []);
    assert k + "=" + j + [] == k + "=" + j;
  }

  /** A character other than the separator that no piece holds is not in the join. */
  lemma {:induction false} JoinAvoids(parts: seq<string>, c: char, x: char)
    requires |parts| >= 1 && x != c
    requires forall i :: 0 <= i < |parts| ==> x !in parts[i]
    ensures x !in Join(parts, c)
    decreases |parts|
  {
    if |parts| > 1 {
      JoinAvoids(parts[1..], c, x);
    }
  }

  /** The join is not empty when its last piece is not. */
  lemma {:induction false} JoinLast(parts: seq<string>, c: char)
    requires |parts| >= 1 && parts[|parts| - 1] != ""
    ensures Join(parts, c) != ""
    decreases |parts|
  {
    if |parts| > 1 {
      JoinLast(parts[1..], c);
    }
  }

  /** Text after a second '=' is ignored. */
  lemma ConvertIgnoresRest(k: string, v: string, rest: string)
    requires '=' !in k && '=' !in v && v != ""
    ensures Convert(k + "=" + v + "=" + rest) == Convert(k + "=" + v)
  {
    KeyValuePieces(k, v, "=" + rest);
    KeyValuePieces(k, v, []);
    assert k + "=" + v + "=" + rest == k + "=" + v + ("=" + rest);
    assert k + "=" + v + [] == k + "=" + v;
  }
}
