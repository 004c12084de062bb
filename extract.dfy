/**
 esp_extract_substring: the text between the first start delimiter and the
 first end delimiter after it, cut to fit an output buffer of outputSize
 bytes (one of which holds the terminator).
 */
module Extract {
  import opened Wrappers
  import opened CText

  /** None stands for the source's `false`; Some(v) for `true` with v left in
      the output buffer. strstr(start_pos, end_delim) looks only at the text
      after the start delimiter, which FindFrom does from that index. */
  function ExtractSubstring(source: CString, startDelim: CString, endDelim: CString,
                            outputSize: nat): (r: Option<CString>)
    requires 1 <= outputSize
    ensures r.Some? ==> |r.value| < outputSize
  {
    match Find(source, startDelim)
    case None => None
    case Some(i) =>
      var from := i + |startDelim|;
      match FindFrom(source, endDelim, from)
      case None => None
      case Some(j) =>
        var length := if j - from >= outputSize then outputSize - 1 else j - from;
        Some(source[from..from + length])
  }

  /** Not found exactly when the start delimiter is absent, or when no end
      delimiter begins after the end of its first occurrence; whether an end
      delimiter occurs elsewhere does not matter. */
  lemma ExtractNotFound(source: CString, startDelim: CString, endDelim: CString, outputSize: nat)
    requires 1 <= outputSize
    ensures ExtractSubstring(source, startDelim, endDelim, outputSize).None? <==>
            (forall i :: !OccursAt(source, startDelim, i)) ||
            (exists i :: OccursAt(source, startDelim, i) &&
                         (forall i' :: 0 <= i' < i ==> !OccursAt(source, startDelim, i')) &&
                         (forall j :: i + |startDelim| <= j ==> !OccursAt(source, endDelim, j)))
  {
    match Find(source, startDelim)
    case None =>
    case Some(i) =>
      var from := i + |startDelim|;
      forall i2 | OccursAt(source, startDelim, i2) &&
                  (forall i' :: 0 <= i' < i2 ==> !OccursAt(source, startDelim, i'))
        ensures i2 == i
      {
      }
  }

  /** Round trip: a value framed by its delimiters, with the start delimiter
      first occurring at the frame and the end delimiter first occurring right
      after the value, is extracted, cut to outputSize - 1 characters. */
  lemma ExtractFramed(pre: CString, startDelim: CString, value: CString, endDelim: CString,
                      post: CString, outputSize: nat)
    requires 1 <= outputSize
    requires var source := pre + startDelim + value + endDelim + post;
             (forall i :: 0 <= i < |pre| ==> !OccursAt(source, startDelim, i)) &&
             (forall j :: |pre| + |startDelim| <= j < |pre| + |startDelim| + |value| ==>
                            !OccursAt(source, endDelim, j))
    ensures ExtractSubstring(pre + startDelim + value + endDelim + post, startDelim, endDelim, outputSize)
            == Some(Truncate(value, outputSize - 1))
  {
    var source := pre + startDelim + value + endDelim + post;
    var from := |pre| + |startDelim|;
    FramedPieces(pre, startDelim, value, endDelim, post);
    var m := Min(|value|, outputSize - 1);
    ExtractAt(source, startDelim, endDelim, outputSize, |pre|, from + |value|, from, m);
    SliceOfSlice(source, from, from + |value|, m);
    assert source[from..from + m] == Truncate(value, outputSize - 1);
  }

  lemma SliceOfSlice(s: seq<char>, a: nat, b: nat, m: nat)
    requires a + m <= b <= |s|
    ensures Truncate(s[a..b], m) == s[a..a + m]
  {
  }

  /** The extraction is pinned down by the leftmost start delimiter at i and
      the leftmost end delimiter at j after it. */
  lemma ExtractAt(source: CString, startDelim: CString, endDelim: CString, outputSize: nat,
                  i: nat, j: nat, from: nat, length: nat)
    requires 1 <= outputSize
    requires from == i + |startDelim| && length == Min(j - from, outputSize - 1)
    requires OccursAt(source, startDelim, i) && forall i' :: 0 <= i' < i ==> !OccursAt(source, startDelim, i')
    requires i + |startDelim| <= j && OccursAt(source, endDelim, j)
    requires forall j' :: i + |startDelim| <= j' < j ==> !OccursAt(source, endDelim, j')
    ensures ExtractSubstring(source, startDelim, endDelim, outputSize) == Some(source[from..from + length])
  {
    FindFromIs(source, startDelim, 0, i);
    FindFromIs(source, endDelim, i + |startDelim|, j);
  }

  lemma FramedPieces(pre: seq<char>, startDelim: seq<char>, value: seq<char>, endDelim: seq<char>,
                     post: seq<char>)
    ensures var source := pre + startDelim + value + endDelim + post;
            var from := |pre| + |startDelim|;
            OccursAt(source, startDelim, |pre|) &&
            OccursAt(source, endDelim, from + |value|) &&
            source[from..from + |value|] == value
  {
  }

  /** strstr's answer is pinned down by the leftmost occurrence. */
  lemma FindFromIs(s: seq<char>, p: seq<char>, from: nat, i: nat)
    requires from <= i && OccursAt(s, p, i)
    requires forall j :: from <= j < i ==> !OccursAt(s, p, j)
    ensures FindFrom(s, p, from) == Some(i)
  {
  }

  /** The extracted text is the start of what lies after the first start
      delimiter: it holds no end delimiter, and it is cut only when the output
      is full. */
  lemma ExtractFound(source: CString, startDelim: CString, endDelim: CString, outputSize: nat)
    requires 1 <= outputSize
    requires ExtractSubstring(source, startDelim, endDelim, outputSize).Some?
    ensures var v := ExtractSubstring(source, startDelim, endDelim, outputSize).value;
            exists i :: OccursAt(source, startDelim, i) &&
                        (forall i' :: 0 <= i' < i ==> !OccursAt(source, startDelim, i')) &&
                        OccursAt(source[i + |startDelim|..], v, 0) &&
                        (forall j :: i + |startDelim| <= j < i + |startDelim| + |v| ==>
                                       !OccursAt(source, endDelim, j)) &&
                        (|v| < outputSize - 1 ==> OccursAt(source, endDelim, i + |startDelim| + |v|))
  {
    var i := Find(source, startDelim).value;
    var from := i + |startDelim|;
    var j := FindFrom(source, endDelim, from).value;
    var v := ExtractSubstring(source, startDelim, endDelim, outputSize).value;
    assert source[from..][0..|v|] == v;
  }
}
