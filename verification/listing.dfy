/**
 The listing commands of fds/fds_cmd.py: `list_buckets` (filter by prefix
 and start mark), `list_directory` (normalised `/`-terminated prefix, every
 page until the listing is complete, names printed without the prefix) and
 `list_object` (one page, raw names, `...` when more exist).

 The storage client is modelled by the pages it answers with, in the order
 it is asked; each call made to it is recorded. Printed output is the list
 of lines written, each of which is followed by a newline.
 */
module Listing {
  import opened Common

  // ---- Python 2 string order ----

  /** Python 2 `a < b` on byte strings: lexicographic by character code, so a proper prefix is below. */
  function LexLess(a: string, b: string): (r: bool)
    ensures StartsWith(b, a) && |a| < |b| ==> r
    decreases |a|
  {
    if |b| == 0 then false
    else if |a| == 0 then true
    else if a[0] != b[0] then a[0] < b[0]
    else
      assert StartsWith(b, a) ==> StartsWith(b[1..], a[1..]) by {
        if StartsWith(b, a) {
          assert b[1..][..|a| - 1] == b[..|a|][1..];
        }
      }
      LexLess(a[1..], b[1..])
  }

  /** The order is total: exactly one of `a < b`, `a == b`, `b < a`. */
  lemma {:induction false} LexLessTrichotomy(a: string, b: string)
    ensures a == b || LexLess(a, b) || LexLess(b, a)
    ensures !(LexLess(a, b) && LexLess(b, a))
    ensures !LexLess(a, a)
    decreases |a|
  {
    if |a| > 0 && |b| > 0 && a[0] == b[0] {
      LexLessTrichotomy(a[1..], b[1..]);
      LexLessTrichotomy(a[1..], a[1..]);
      if a[1..] == b[1..] {
        assert a == [a[0]] + a[1..] && b == [b[0]] + b[1..];
      }
    } else if |a| > 0 {
      LexLessTrichotomy(a[1..], a[1..]);
    }
  }

  /** The order is transitive, so with LexLessTrichotomy it is a strict total order. */
  lemma {:induction false} LexLessTransitive(a: string, b: string, c: string)
    requires LexLess(a, b) && LexLess(b, c)
    ensures LexLess(a, c)
    decreases |a|
  {
    if |a| > 0 && a[0] == b[0] && b[0] == c[0] {
      LexLessTransitive(a[1..], b[1..], c[1..]);
    }
  }

  /** A string is never below a prefix of itself. */
  lemma {:induction false} ExtensionNotBelow(a: string, m: string)
    requires StartsWith(a, m)
    ensures !LexLess(a, m)
    decreases |m|
  {
    if |m| > 0 {
      assert a[0] == m[0];
      assert StartsWith(a[1..], m[1..]) by {
        assert a[1..][..|m| - 1] == a[..|m|][1..];
      }
      ExtensionNotBelow(a[1..], m[1..]);
    }
  }

  /** `name >= start_mark`; in Python 2 a missing start mark (`None`) is below every string. */
  function AtOrAfter(name: string, startMark: Option<string>): (r: bool)
    ensures startMark.None? ==> r
    ensures startMark.Some? ==> (r <==> name == startMark.value || LexLess(startMark.value, name))
  {
    if startMark.None? then true
    else
      LexLessTrichotomy(name, startMark.value);
      !LexLess(name, startMark.value)
  }

  // ---- list_buckets ----

  /** The bucket test of `list_buckets`; a bucket extending the start mark only needs the prefix. */
  function BucketShown(name: string, prefix: string, startMark: Option<string>): (r: bool)
    ensures startMark.Some? && StartsWith(name, startMark.value) ==> (r <==> StartsWith(name, prefix))
  {
    if startMark.Some? && StartsWith(name, startMark.value) then
      ExtensionNotBelow(name, startMark.value);
      StartsWith(name, prefix) && AtOrAfter(name, startMark)
    else
      StartsWith(name, prefix) && AtOrAfter(name, startMark)
  }

  /** The line printed for one bucket: its name and `/` when shown, nothing otherwise. */
  function BucketLine(name: string, prefix: string, startMark: Option<string>): seq<string>
  {
    if BucketShown(name, prefix, startMark) then [name + "/"] else []
  }

  /** `list_buckets`: each shown bucket's name followed by `/`, in the order listed. */
  function ListBuckets(names: seq<string>, prefix: string, startMark: Option<string>): (lines: seq<string>)
    ensures |lines| <= |names|
    decreases |names|
  {
    if |names| == 0 then [] else BucketLine(names[0], prefix, startMark) + ListBuckets(names[1..], prefix, startMark)
  }

  /** Output keeps input order: listing a concatenation prints the two listings in turn. */
  lemma {:induction false} ListBucketsAppend(a: seq<string>, b: seq<string>, prefix: string, startMark: Option<string>)
    ensures ListBuckets(a + b, prefix, startMark) == ListBuckets(a, prefix, startMark) + ListBuckets(b, prefix, startMark)
    decreases |a|
  {
    if |a| == 0 {
      assert a + b == b;
    } else {
      assert (a + b)[0] == a[0];
      assert (a + b)[1..] == a[1..] + b;
      ListBucketsAppend(a[1..], b, prefix, startMark);
      var head := BucketLine(a[0], prefix, startMark);
      var restA := ListBuckets(a[1..], prefix, startMark);
      var restB := ListBuckets(b, prefix, startMark);
      assert ListBuckets(a + b, prefix, startMark) == head + (restA + restB);
      assert ListBuckets(a, prefix, startMark) == head + restA;
      assert head + (restA + restB) == (head + restA) + restB;
    }
  }

  /** A line is printed exactly when some listed bucket passes the test and the line is its name and `/`. */
  lemma {:induction false} ListBucketsMembership(names: seq<string>, prefix: string, startMark: Option<string>, line: string)
    ensures line in ListBuckets(names, prefix, startMark)
      <==> exists i :: 0 <= i < |names| && BucketShown(names[i], prefix, startMark) && line == names[i] + "/"
    decreases |names|
  {
    if |names| > 0 {
      ListBucketsMembership(names[1..], prefix, startMark, line);
      if exists i :: 0 <= i < |names| && BucketShown(names[i], prefix, startMark) && line == names[i] + "/" {
        var i :| 0 <= i < |names| && BucketShown(names[i], prefix, startMark) && line == names[i] + "/";
        if i > 0 {
          assert names[1..][i - 1] == names[i];
        }
      }
      if line in ListBuckets(names[1..], prefix, startMark) {
        var i :| 0 <= i < |names[1..]| && BucketShown(names[1..][i], prefix, startMark) && line == names[1..][i] + "/";
        assert names[i + 1] == names[1..][i];
      }
    }
  }

  /** With an empty prefix and no start mark every bucket is printed. */
  lemma {:induction false} ListBucketsUnfiltered(names: seq<string>)
    ensures ListBuckets(names, "", None) == seq(|names|, i requires 0 <= i < |names| => names[i] + "/")
    decreases |names|
  {
    if |names| > 0 {
      ListBucketsUnfiltered(names[1..]);
      assert StartsWith(names[0], "");
    }
  }

  /** A bucket named by the start mark, or extending it, passes the start-mark test. */
  lemma StartMarkItselfShown(name: string, prefix: string, mark: string)
    requires StartsWith(name, prefix) && StartsWith(name, mark)
    ensures BucketShown(name, prefix, Some(mark))
  {
    ExtensionNotBelow(name, mark);
  }

  // ---- Directory prefixes ----

  /** `list_directory`'s path prefix: empty, or the given prefix ending in `/`. */
  function NormalizePrefix(prefix: Option<string>): (path: string)
    ensures path == "" || EndsWith(path, '/')
    ensures !Truthy(prefix) ==> path == ""
    ensures Truthy(prefix) ==> StartsWith(path, prefix.value) && |path| <= |prefix.value| + 1
  {
    if !Truthy(prefix) then ""
    else if EndsWith(prefix.value, '/') then prefix.value
    else prefix.value + "/"
  }

  /** The path prefix is the shortest extension of the given prefix that is empty or ends in `/`. */
  lemma NormalizePrefixShortest(prefix: string, other: string)
    requires StartsWith(other, prefix) && (other == "" || EndsWith(other, '/'))
    ensures |NormalizePrefix(Some(prefix))| <= |other|
  {
  }

  /** Normalising a normalised prefix changes nothing. */
  lemma NormalizePrefixIdempotent(prefix: Option<string>)
    ensures NormalizePrefix(Some(NormalizePrefix(prefix))) == NormalizePrefix(prefix)
  {
  }

  /** Python `name[cut:]`: empty when `cut` is past the end. */
  function Strip(name: string, cut: nat): (r: string)
    ensures cut <= |name| ==> name[..cut] + r == name
    ensures |r| == if cut <= |name| then |name| - cut else 0
  {
    if cut <= |name| then name[cut..] else ""
  }

  /** A name under the path prefix is the prefix followed by what is printed for it. */
  lemma StripRestores(name: string, path: string)
    requires StartsWith(name, path)
    ensures path + Strip(name, |path|) == name
  {
    assert name == name[..|path|] + name[|path|..];
  }

  // ---- Pages and calls ----

  /** One answer of the listing API. */
  datatype Page = Page(commonPrefixes: seq<string>, objects: seq<string>, isTruncated: bool, nextMarker: string)

  /** A request made to the storage client. */
  datatype Call =
    | ListObjects(bucket: string, prefix: string, delimiter: string)
    | NextBatch(marker: string)

  /** What a listing command did: the calls it made and the lines it printed. */
  datatype Listing = Listing(calls: seq<Call>, lines: seq<string>)

  /** Every name with its first `cut` characters dropped. */
  function StripAll(names: seq<string>, cut: nat): (r: seq<string>)
    ensures |r| == |names|
    ensures forall i :: 0 <= i < |names| ==> r[i] == Strip(names[i], cut)
  {
    seq(|names|, i requires 0 <= i < |names| => Strip(names[i], cut))
  }

  /** The lines printed for one page: common prefixes, then object names, both stripped. */
  function PageLines(page: Page, cut: nat): seq<string>
  {
    StripAll(page.commonPrefixes, cut) + StripAll(page.objects, cut)
  }

  /** The lines of the pages `first .. end-1`, in order. */
  function ShownLines(responses: seq<Page>, first: nat, end: nat, cut: nat): seq<string>
    requires first <= end <= |responses|
    decreases end
  {
    if end == first then [] else ShownLines(responses, first, end - 1, cut) + PageLines(responses[end - 1], cut)
  }

  /** The follow-up requests made after the pages `first .. end-1`, each with the page's own next marker. */
  function MarkerCalls(responses: seq<Page>, first: nat, end: nat): seq<Call>
    requires first <= end <= |responses|
    decreases end
  {
    if end == first then [] else MarkerCalls(responses, first, end - 1) + [NextBatch(responses[end - 1].nextMarker)]
  }

  /** The first page at or after `from` that says the listing is complete. */
  function FirstComplete(responses: seq<Page>, from: nat): (k: Option<nat>)
    ensures k.Some? ==> (from <= k.value < |responses| && !responses[k.value].isTruncated
      && forall j :: from <= j < k.value ==> responses[j].isTruncated)
    ensures k.None? ==> forall j :: from <= j < |responses| ==> responses[j].isTruncated
    decreases |responses| - from
  {
    if from >= |responses| then None
    else if !responses[from].isTruncated then Some(from)
    else FirstComplete(responses, from + 1)
  }

  /** The request that jumps to a start mark: bucket, `/`, prefix, start mark. */
  function JumpCall(bucket: string, prefix: string, mark: string): Call
  {
    NextBatch(bucket + "/" + prefix + mark)
  }

  /** The opening requests: the listing itself, then the jump when a start mark is given. */
  function OpeningCalls(bucket: string, prefix: string, delimiter: string, startMark: Option<string>): (r: seq<Call>)
    ensures |r| == if Truthy(startMark) then 2 else 1
    ensures r[0] == ListObjects(bucket, prefix, delimiter)
    ensures Truthy(startMark) ==> r[1] == JumpCall(bucket, prefix, startMark.value)
  {
    [ListObjects(bucket, prefix, delimiter)]
      + (if Truthy(startMark) then [JumpCall(bucket, prefix, startMark.value)] else [])
  }

  /** The index of the first page shown: the first answer is discarded after a jump. */
  function FirstShown(startMark: Option<string>): (first: nat)
    ensures first <= 1
    ensures first == 1 <==> Truthy(startMark)
  {
    if Truthy(startMark) then 1 else 0
  }

  /** The first page shown answers the last opening request: the jump when there is one, else the listing. */
  lemma FirstShownAnswersLastOpening(bucket: string, prefix: string, delimiter: string, startMark: Option<string>)
    ensures FirstShown(startMark) == |OpeningCalls(bucket, prefix, delimiter, startMark)| - 1
  {
  }

  /**
   `list_directory`: lists under the normalised prefix with delimiter `/`,
   prints every page with the prefix stripped, and keeps asking for the next
   page until one says the listing is complete. `None` when the answers run
   out before that.
   */
  method ListDirectory(bucket: string, prefix: Option<string>, startMark: Option<string>, responses: seq<Page>)
    returns (r: Option<Listing>)
    ensures var path := NormalizePrefix(prefix);
      var first := FirstShown(startMark);
      match FirstComplete(responses, first)
      case None => r.None?
      case Some(k) => r == Some(Listing(
        OpeningCalls(bucket, path, "/", startMark) + MarkerCalls(responses, first, k),
        ShownLines(responses, first, k + 1, |path|)))
  {
    var path := NormalizePrefix(prefix);
    var first := FirstShown(startMark);
    var cut := |path|;
    var calls := OpeningCalls(bucket, path, "/", startMark);
    if |responses| <= first {
      return None;
    }
    var next := first;
    var lines: seq<string> := [];
    while next < |responses|
      invariant first <= next <= |responses|
      invariant forall j :: first <= j < next ==> responses[j].isTruncated
      invariant lines == ShownLines(responses, first, next, cut)
      invariant calls == OpeningCalls(bucket, path, "/", startMark) + MarkerCalls(responses, first, next)
      decreases |responses| - next
    {
      var page := responses[next];
      lines := lines + PageLines(page, cut);
      if !page.isTruncated {
        assert calls == OpeningCalls(bucket, path, "/", startMark) + MarkerCalls(responses, first, next);
        return Some(Listing(calls, lines));
      }
      calls := calls + [NextBatch(page.nextMarker)];
      next := next + 1;
    }
    return None;
  }

  /**
   `list_object`: lists under the raw prefix with no delimiter, prints one
   page's names unchanged, and adds one `...` line exactly when the page says
   more exist.
   */
  function ListObject(bucket: string, prefix: string, startMark: Option<string>, responses: seq<Page>): (r: Option<Listing>)
    ensures r.Some? <==> FirstShown(startMark) < |responses|
    ensures r.Some? ==> r.value.calls == OpeningCalls(bucket, prefix, "", startMark)
    ensures r.Some? ==>
      var page := responses[FirstShown(startMark)];
      var n := |page.commonPrefixes| + |page.objects|;
      && |r.value.lines| == n + (if page.isTruncated then 1 else 0)
      && r.value.lines[..n] == page.commonPrefixes + page.objects
      && (page.isTruncated ==> r.value.lines[n] == "...")
  {
    var first := FirstShown(startMark);
    if |responses| <= first then None
    else
      var page := responses[first];
      Some(Listing(
        OpeningCalls(bucket, prefix, "", startMark),
        page.commonPrefixes + page.objects + (if page.isTruncated then ["..."] else [])))
  }

  /** Dropping nothing leaves a name unchanged. */
  lemma StripAllNothing(names: seq<string>)
    ensures StripAll(names, 0) == names
  {
  }

  /**
   Given the same answers, under an empty prefix (nothing to strip) and with
   a complete first page shown, the directory listing and the flat listing
   print the same lines. Their requests still differ: the directory listing
   asks with delimiter `/` and the flat listing with none, so the service
   would in general answer them with different pages.
   */
  lemma DirectoryAgreesWithFlatOnOnePage(bucket: string, startMark: Option<string>, responses: seq<Page>, first: nat)
    requires first == FirstShown(startMark) < |responses|
    requires !responses[first].isTruncated
    ensures ShownLines(responses, first, first + 1, 0)
      == ListObject(bucket, "", startMark, responses).value.lines
    ensures OpeningCalls(bucket, "", "/", startMark)[0].delimiter == "/"
    ensures ListObject(bucket, "", startMark, responses).value.calls[0].delimiter == ""
  {
    var page := responses[first];
    StripAllNothing(page.commonPrefixes);
    StripAllNothing(page.objects);
    assert ShownLines(responses, first, first + 1, 0) == [] + PageLines(page, 0);
  }

  /** A complete first page is the last one `list_directory` shows. */
  lemma CompleteFirstPageIsLast(responses: seq<Page>, first: nat)
    requires first < |responses| && !responses[first].isTruncated
    ensures FirstComplete(responses, first) == Some(first)
  {
  }

  /** Every line `list_directory` prints for a name under its path prefix restores to that name. */
  lemma DirectoryLineRestores(page: Page, path: string, i: int)
    requires 0 <= i < |page.objects| && StartsWith(page.objects[i], path)
    ensures path + PageLines(page, |path|)[|page.commonPrefixes| + i] == page.objects[i]
  {
    StripRestores(page.objects[i], path);
  }
}
