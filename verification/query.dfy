/** The `genre` and `match_type` query parameters of the filtered request:
    each selected genre lower-cased, joined with the literal `%2C`, and the
    match type lower-cased. `Split` is the matching decoder and is used only
    to state what the encoding preserves. */
module Query {

  const Separator: string := "%2C"

  predicate IsUpper(c: char) {
    'A' <= c <= 'Z'
  }

  /** Lower-case mapping of one character (ASCII letters only). */
  function LowerChar(c: char): (r: char)
    ensures !IsUpper(r)
    ensures !IsUpper(c) ==> r == c
    ensures IsUpper(c) ==> 'a' <= r <= 'z' && r as int - c as int == 'a' as int - 'A' as int
  {
    if IsUpper(c) then (c as int - 'A' as int + 'a' as int) as char else c
  }

  /** Lower-case mapping of a string, character by character. */
  function Lower(s: string): (r: string)
    ensures |r| == |s|
    ensures forall i :: 0 <= i < |s| ==> !IsUpper(r[i])
    ensures forall i :: 0 <= i < |s| && !IsUpper(s[i]) ==> r[i] == s[i]
    ensures forall i :: 0 <= i < |s| && IsUpper(s[i]) ==>
      r[i] as int - s[i] as int == 'a' as int - 'A' as int
    ensures '%' !in s ==> '%' !in r
  {
    seq(|s|, i requires 0 <= i < |s| => LowerChar(s[i]))
  }

  /** Lower-casing twice is lower-casing once. */
  lemma LowerIdempotent(s: string)
    ensures Lower(Lower(s)) == Lower(s)
  {
  }

  /** Every entry of a list lower-cased, in the same order. */
  function LowerAll(xs: seq<string>): (r: seq<string>)
    ensures |r| == |xs|
    ensures forall i :: 0 <= i < |xs| ==> r[i] == Lower(xs[i])
  {
    seq(|xs|, i requires 0 <= i < |xs| => Lower(xs[i]))
  }

  /** The entries of `parts` joined with `sep` between consecutive entries;
      no entries join to the empty string. The first entry opens the result
      and the last one closes it. */
  function Join(parts: seq<string>, sep: string): (r: string)
    ensures |parts| >= 1 ==> parts[0] <= r
    ensures |parts| >= 1 ==>
      |parts[|parts| - 1]| <= |r| && r[|r| - |parts[|parts| - 1]|..] == parts[|parts| - 1]
    decreases |parts|
  {
    if |parts| == 0 then ""
    else if |parts| == 1 then parts[0]
    else
      var tail := Join(parts[1..], sep);
      var r := parts[0] + sep + tail;
      var n := |parts[|parts| - 1]|;
      assert parts[1..][|parts| - 2] == parts[|parts| - 1];
      assert r[|r| - n..] == tail[|tail| - n..];
      r
  }

  /** Cuts `s` at every occurrence of `Separator`; always at least one part. */
  function Split(s: string): (r: seq<string>)
    ensures |r| >= 1
    decreases |s|
  {
    if |s| == 0 then [""]
    else if |s| >= |Separator| && s[..|Separator|] == Separator then [""] + Split(s[|Separator|..])
    else
      var rest := Split(s[1..]);
      [[s[0]] + rest[0]] + rest[1..]
  }

  /** A part without `%` is not cut. */
  lemma {:induction false} SplitPlain(x: string)
    requires '%' !in x
    ensures Split(x) == [x]
    decreases |x|
  {
    if |x| > 0 {
      assert x[0] != Separator[0];
      SplitPlain(x[1..]);
      assert [x[0]] + x[1..] == x;
    }
  }

  /** A part without `%` followed by the separator is cut off whole. */
  lemma {:induction false} SplitLeading(x: string, t: string)
    requires '%' !in x
    ensures Split(x + Separator + t) == [x] + Split(t)
    decreases |x|
  {
    var s := x + Separator + t;
    if |x| == 0 {
      assert s == Separator + t;
      assert s[..|Separator|] == Separator;
      assert s[|Separator|..] == t;
    } else {
      assert s[0] == x[0] != Separator[0];
      assert s[1..] == x[1..] + Separator + t;
      SplitLeading(x[1..], t);
      assert [x[0]] + x[1..] == x;
    }
  }

  /** Splitting undoes joining with `Separator` when no part contains `%`
      and there is at least one part. */
  lemma {:induction false} SplitJoin(parts: seq<string>)
    requires |parts| >= 1
    requires forall i :: 0 <= i < |parts| ==> '%' !in parts[i]
    ensures Split(Join(parts, Separator)) == parts
    decreases |parts|
  {
    if |parts| == 1 {
      SplitPlain(parts[0]);
    } else {
      var rest := parts[1..];
      assert forall i :: 0 <= i < |rest| ==> '%' !in rest[i] by {
        forall i | 0 <= i < |rest| ensures '%' !in rest[i] {
          assert rest[i] == parts[i + 1];
        }
      }
      SplitJoin(rest);
      assert Join(parts, Separator) == parts[0] + Separator + Join(rest, Separator);
      SplitLeading(parts[0], Join(rest, Separator));
      assert [parts[0]] + rest == parts;
    }
  }

  /** The `genre` parameter: the selection lower-cased and joined with `%2C`
      in selection order. It starts with the first entry lower-cased and,
      when no entry contains `%`, decodes back to exactly the lower-cased
      selection, entry by entry and in order. */
  function GenreParam(sel: seq<string>): (r: string)
    ensures |sel| >= 1 ==> Lower(sel[0]) <= r
    ensures (|sel| >= 1 && forall i :: 0 <= i < |sel| ==> '%' !in sel[i]) ==>
      Split(r) == LowerAll(sel)
  {
    var lowered := LowerAll(sel);
    if |sel| >= 1 && forall i :: 0 <= i < |sel| ==> '%' !in sel[i] then
      SplitJoin(lowered);
      Join(lowered, Separator)
    else
      Join(lowered, Separator)
  }

  /** With the placeholder first, the parameter opens with the separator:
      `["", "Action"]` gives `%2Caction`. */
  lemma PlaceholderExample()
    ensures GenreParam(["", "Action"]) == "%2Caction"
  {
    var lowered: seq<string> := ["", "action"];
    assert Lower("Action") == "action";
    assert LowerAll(["", "Action"]) == lowered;
    assert Join(lowered[1..], Separator) == "action";
    assert Join(lowered, Separator) == "" + Separator + "action";
  }
}
