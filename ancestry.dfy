/**
 * Ancestry strings of tree items and `parent_from_ancestry`.
 *
 * An ancestry is a `.`-separated path of `name:index` segments: the first
 * segment is the item itself with its index inside its parent, the second is
 * the parent, and so on towards the root. Parsing yields the parent's name and
 * the item's index in it, `Rootless` for a one-segment path, or the exception
 * the Python code raises on a malformed first segment.
 */
module Ancestry {
  import opened Wrappers
  import opened PyStr

  /** The `(parent name, index)` pair, or `(None, None)` for a path without a parent. */
  datatype Location = Rootless | Parent(name: string, index: nat)

  /** `parent_from_ancestry(ancestry)`. */
  function ParentFromAncestry(ancestry: string): (r: Result<Location, PyError>)
    ensures r == Ok(Rootless) <==> '.' !in ancestry
    ensures r.Err? ==> r.error == IndexError || r.error == ValueError
    ensures r.Ok? && r.value.Parent? ==> '.' !in r.value.name && ':' !in r.value.name
  {
    var l := Split(ancestry, '.');
    if |l| == 1 then Ok(Rootless)
    else
      var parentName := Split(l[1], ':')[0];
      var fields := Split(l[0], ':');
      if |fields| < 2 then Err(IndexError)
      else
        match ParseInt(fields[1])
        case Ok(index) => Ok(Parent(parentName, index))
        case Err(e) => Err(e)
  }

  /**
   * The general shape of a multi-segment ancestry: the first segment is
   * `name:field` optionally followed by more `:`-separated text, the second
   * is the parent name optionally followed by `:` and more. The parent name
   * is the second segment's text before its first `:`; the index is `field`,
   * the text between the first and second `:` of the first segment, which
   * must be decimal; anything from the third segment on is ignored.
   */
  lemma ParseFields(name: string, field: string, more: string,
                    parent: string, ptail: string, rest: string)
    requires '.' !in name && ':' !in name
    requires '.' !in field && ':' !in field
    requires '.' !in more && (more == [] || more[0] == ':')
    requires '.' !in parent && ':' !in parent
    requires '.' !in ptail && (ptail == [] || ptail[0] == ':')
    requires rest == [] || rest[0] == '.'
    ensures ParentFromAncestry(name + ":" + field + more + "." + parent + ptail + rest)
         == if IsDecimal(field) then Ok(Parent(parent, DigitsValue(field))) else Err(ValueError)
  {
    var first := name + ":" + field + more;
    var second := parent + ptail;
    assert name + ":" + field + more + "." + parent + ptail + rest == first + "." + second + rest;
    SplitFirstTwo(first, second, rest, '.');
    SplitAt(parent, ptail, ':');
    SplitFirstTwo(name, field, more, ':');
  }

  /** A multi-segment ancestry whose first segment has no `:` raises `IndexError`. */
  lemma MissingColon(first: string, rest: string)
    requires '.' !in first && ':' !in first
    requires rest != [] && rest[0] == '.'
    ensures ParentFromAncestry(first + rest) == Err(IndexError)
  {
    SplitAt(first, rest, '.');
    SplitAt(first, [], ':');
    assert first + [] == first;
  }

  /** Segments after the second one do not affect the result. */
  lemma TrailingSegmentsIgnored(first: string, second: string, tail: string)
    requires '.' !in first && '.' !in second
    ensures ParentFromAncestry(first + "." + second + "." + tail)
         == ParentFromAncestry(first + "." + second)
  {
    var long := first + "." + second + "." + tail;
    var short := first + "." + second;
    assert long == first + "." + second + ("." + tail);
    assert short == first + "." + second + [];
    SplitFirstTwo(first, second, "." + tail, '.');
    SplitFirstTwo(first, second, [], '.');
    var l, s := Split(long, '.'), Split(short, '.');
    assert |l| != 1 && |s| != 1 && l[0] == s[0] && l[1] == s[1];
  }

  /** One segment of an ancestry as the tree items write it. */
  datatype Segment = Segment(name: string, index: nat)

  /** Item names that can appear in an ancestry without being misread. */
  predicate PlainName(name: string) {
    '.' !in name && ':' !in name
  }

  function SegmentText(s: Segment): string {
    s.name + ":" + DecimalString(s.index)
  }

  /** The ancestry string of a path of segments, item first, root last. */
  function Encode(path: seq<Segment>): string
    requires |path| >= 1
  {
    Join(seq(|path|, i requires 0 <= i < |path| => SegmentText(path[i])), '.')
  }

  lemma DecimalHasNoSeparator(s: string)
    requires IsDecimal(s)
    ensures '.' !in s && ':' !in s
  {
  }

  /**
   * Round trip: parsing an encoded path gives the second segment's name and
   * the first segment's index, or `Rootless` for a one-segment path.
   */
  lemma ParseEncoded(path: seq<Segment>)
    requires |path| >= 1
    requires forall i :: 0 <= i < |path| ==> PlainName(path[i].name)
    ensures |path| == 1 ==> ParentFromAncestry(Encode(path)) == Ok(Rootless)
    ensures |path| >= 2 ==> ParentFromAncestry(Encode(path)) == Ok(Parent(path[1].name, path[0].index))
  {
    var texts := seq(|path|, i requires 0 <= i < |path| => SegmentText(path[i]));
    assert Encode(path) == Join(texts, '.');
    var d0 := DecimalString(path[0].index);
    DecimalHasNoSeparator(d0);
    if |path| == 1 {
      assert Encode(path) == path[0].name + ":" + d0;
    } else {
      var d1 := DecimalString(path[1].index);
      DecimalHasNoSeparator(d1);
      var rest := if |path| == 2 then [] else "." + Join(texts[2..], '.');
      assert texts[1..][1..] == texts[2..];
      assert Join(texts[1..], '.') == texts[1] + rest;
      assert Encode(path) == path[0].name + ":" + d0 + [] + "." + path[1].name + (":" + d1) + rest;
      ParseFields(path[0].name, d0, [], path[1].name, ":" + d1, rest);
      ParseDecimalString(path[0].index);
    }
  }
}
