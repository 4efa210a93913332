/** The search-term highlighter of the record list page (`highlightText`):
    the first case-insensitive occurrence of the term in a cell's markup is
    wrapped in a highlighting span; everything else is kept verbatim. */
module SearchHighlight {
  import opened Wrappers
  import opened Strings

  const OpenTag: string := "<span class=\"bg-warning text-dark\">"
  const CloseTag: string := "</span>"

  /** The rewrite of one cell's markup. An empty term, or a term that does
      not occur up to case, leaves the markup unchanged. */
  function HighlightText(html: string, term: string): (r: string)
    ensures term == "" ==> r == html
    ensures !IContains(html, term) ==> r == html
    ensures term != "" && IContains(html, term) ==>
      |r| == |html| + |OpenTag| + |CloseTag|
  {
    if term == "" then html
    else
      match IndexOfIgnoringCase(html, term)
      case None => html
      case Some(i) => Wrap(html, i, |term|)
  }

  /** Wraps the `n` characters at position `i` in the highlighting span. */
  function Wrap(html: string, i: nat, n: nat): string
    requires i + n <= |html|
  {
    html[..i] + OpenTag + html[i..i + n] + CloseTag + html[i + n..]
  }

  /** Removes the tags inserted around the `n` characters at position `i`. */
  function Unwrap(r: string, i: nat, n: nat): string
    requires i + |OpenTag| + n + |CloseTag| <= |r|
  {
    r[..i] + r[i + |OpenTag|..i + |OpenTag| + n] + r[i + |OpenTag| + n + |CloseTag|..]
  }

  /** On a match at the first case-insensitive occurrence `i`: the prefix
      before it and the suffix after it are kept verbatim, the wrapped slice
      is the original text (original case) and equals the term up to case,
      and removing the two tags gives back the original markup. */
  lemma HighlightShape(html: string, term: string)
    requires term != "" && IContains(html, term)
    ensures var i := IndexOfIgnoringCase(html, term).value;
      var r := HighlightText(html, term);
      var j := i + |OpenTag|;
      && FoldedMatchAt(html, term, i)
      && (forall k :: 0 <= k < i ==> !FoldedMatchAt(html, term, k))
      && r[..i] == html[..i]
      && r[i..j] == OpenTag
      && r[j..j + |term|] == html[i..i + |term|]
      && Lower(r[j..j + |term|]) == Lower(term)
      && r[j + |term|..j + |term| + |CloseTag|] == CloseTag
      && r[j + |term| + |CloseTag|..] == html[i + |term|..]
      && Unwrap(r, i, |term|) == html
  {
    HighlightPieces(html, term);
  }

  /** The slices of the highlighted text, without the facts about where the
      match is. */
  lemma HighlightPieces(html: string, term: string)
    requires term != "" && IContains(html, term)
    ensures var i := IndexOfIgnoringCase(html, term).value;
      var r := HighlightText(html, term);
      var j := i + |OpenTag|;
      && r[..i] == html[..i]
      && r[i..j] == OpenTag
      && r[j..j + |term|] == html[i..i + |term|]
      && r[j + |term|..j + |term| + |CloseTag|] == CloseTag
      && r[j + |term| + |CloseTag|..] == html[i + |term|..]
      && Unwrap(r, i, |term|) == html
  {
    WrapParts(html, IndexOfIgnoringCase(html, term).value, |term|);
  }

  /** The pieces of a wrapped text sit at fixed offsets, and unwrapping
      removes exactly the two tags. */
  lemma WrapParts(html: string, i: nat, n: nat)
    requires i + n <= |html|
    ensures var r := Wrap(html, i, n);
      var j := i + |OpenTag|;
      && r[..i] == html[..i]
      && r[i..j] == OpenTag
      && r[j..j + n] == html[i..i + n]
      && r[j + n..j + n + |CloseTag|] == CloseTag
      && r[j + n + |CloseTag|..] == html[i + n..]
      && Unwrap(r, i, n) == html
  {
    var pre, mid, post := html[..i], html[i..i + n], html[i + n..];
    assert html == pre + mid + post;
    ConcatParts(Wrap(html, i, n), pre, mid, post);
  }

  /** The offsets of the five pieces of a concatenation. */
  lemma ConcatParts(r: string, pre: string, mid: string, post: string)
    requires r == pre + OpenTag + mid + CloseTag + post
    ensures var i := |pre|;
      var j := i + |OpenTag|;
      && r[..i] == pre
      && r[i..j] == OpenTag
      && r[j..j + |mid|] == mid
      && r[j + |mid|..j + |mid| + |CloseTag|] == CloseTag
      && r[j + |mid| + |CloseTag|..] == post
      && Unwrap(r, i, |mid|) == pre + mid + post
  {
  }

  /** The page script: when the search box holds a value, every title and
      second-column cell is highlighted; otherwise nothing changes. */
  function HighlightCells(cells: seq<string>, searchValue: string): (r: seq<string>)
    ensures |r| == |cells|
    ensures searchValue == "" ==> r == cells
    ensures searchValue != "" ==> forall k :: 0 <= k < |cells| ==> r[k] == HighlightText(cells[k], searchValue)
    ensures forall k :: 0 <= k < |cells| && !IContains(cells[k], searchValue) ==> r[k] == cells[k]
  {
    if searchValue == "" then cells
    else seq(|cells|, k requires 0 <= k < |cells| => HighlightText(cells[k], searchValue))
  }

  /** Every cell the script changes is the original cell with the first
      case-insensitive match wrapped: removing the two tags gives it back. */
  lemma HighlightCellsReversible(cells: seq<string>, searchValue: string, k: int)
    requires 0 <= k < |cells| && searchValue != "" && IContains(cells[k], searchValue)
    ensures var r := HighlightCells(cells, searchValue);
      var i := IndexOfIgnoringCase(cells[k], searchValue).value;
      && r[k] != cells[k]
      && i + |OpenTag| + |searchValue| + |CloseTag| <= |r[k]|
      && Unwrap(r[k], i, |searchValue|) == cells[k]
  {
    HighlightShape(cells[k], searchValue);
  }
}
