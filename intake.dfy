/** Admission of selected files into the converter's queue: the format test,
    the duplicate test and the filter `handleFileSelect` applies to a selection. */
module Intake {
  import opened Strings

  /** A browser `File` as far as the queue looks at it. */
  datatype FileDesc = FileDesc(name: string, size: nat, mimeType: string)

  /** The supported MIME types with their `video/` or `image/` part removed;
      a file is supported when its type contains one of these anywhere. */
  const Keywords: seq<string> :=
    ["webm", "mp4", "avi", "quicktime", "png", "jpeg", "gif", "bmp", "tiff"]

  /** `.some` over a list of keywords. */
  function AnyIncluded(t: string, ks: seq<string>): (r: bool)
    ensures r <==> exists i :: 0 <= i < |ks| && Includes(t, ks[i])
  {
    if |ks| == 0 then false
    else
      var r := Includes(t, ks[0]) || AnyIncluded(t, ks[1..]);
      assert forall i :: 1 <= i < |ks| ==> ks[i] == ks[1..][i - 1];
      r
  }

  /** `isSupportedFormat`: the type contains one of the keywords as a substring. */
  function IsSupportedFormat(f: FileDesc): (r: bool)
    ensures r <==> exists i, p: nat :: 0 <= i < |Keywords| && OccursAt(f.mimeType, Keywords[i], p)
  {
    AnyIncluded(f.mimeType, Keywords)
  }

  /** Types browsers report for supported files pass, and so does any type that
      merely contains a keyword. */
  lemma AcceptedTypeExamples(name: string, size: nat)
    ensures IsSupportedFormat(FileDesc(name, size, "image/png"))
    ensures IsSupportedFormat(FileDesc(name, size, "video/quicktime"))
    ensures IsSupportedFormat(FileDesc(name, size, "application/mp4"))
  {
    assert OccursAt("image/png", Keywords[4], 6);
    assert OccursAt("video/quicktime", Keywords[3], 6);
    assert OccursAt("application/mp4", Keywords[1], 12);
  }

  /** A type fails when every keyword has a character the type lacks. */
  lemma NoKeywordIn(f: FileDesc, missing: seq<char>)
    requires |missing| == |Keywords|
    requires forall i :: 0 <= i < |Keywords| ==> missing[i] in Keywords[i] && missing[i] !in f.mimeType
    ensures !IsSupportedFormat(f)
  {
    forall i | 0 <= i < |Keywords|
      ensures !Includes(f.mimeType, Keywords[i])
    {
      MissingCharExcludes(f.mimeType, Keywords[i], missing[i]);
    }
  }

  /** `video/x-msvideo`, the usual type of an AVI file, contains no keyword and is rejected. */
  lemma MsVideoRejected(name: string, size: nat)
    ensures !IsSupportedFormat(FileDesc(name, size, "video/x-msvideo"))
  {
    NoKeywordIn(FileDesc(name, size, "video/x-msvideo"), "w4aqpjgbf");
  }

  /** A keyword occurs in nothing shorter than itself; every keyword has three characters or more. */
  lemma ShortTypesRejected(f: FileDesc)
    requires |f.mimeType| < 3
    ensures !IsSupportedFormat(f)
  {
    assert forall k :: k in Keywords ==> |k| >= 3;
    forall i | 0 <= i < |Keywords|
      ensures !Includes(f.mimeType, Keywords[i])
    {
      assert Keywords[i] in Keywords;
    }
  }

  /** Types containing a keyword anywhere pass, whatever surrounds it. */
  lemma SupportedInContext(f: FileDesc, a: string, b: string)
    requires IsSupportedFormat(f)
    ensures IsSupportedFormat(FileDesc(f.name, f.size, a + f.mimeType + b))
  {
    var i :| 0 <= i < |Keywords| && Includes(f.mimeType, Keywords[i]);
    IncludesInContext(f.mimeType, Keywords[i], a, b);
  }

  /** The duplicate key is the pair of name and size. */
  predicate SameKey(a: FileDesc, b: FileDesc)
  {
    a.name == b.name && a.size == b.size
  }

  /** `isDuplicate`: `.some` over the queue, looking for an entry with the same key. */
  function IsDuplicate(queue: seq<FileDesc>, f: FileDesc): (r: bool)
    ensures r <==> exists j :: 0 <= j < |queue| && SameKey(queue[j], f)
  {
    if |queue| == 0 then false
    else
      var r := SameKey(queue[0], f) || IsDuplicate(queue[1..], f);
      assert forall j :: 1 <= j < |queue| ==> queue[j] == queue[1..][j - 1];
      r
  }

  /** The `.filter` of `handleFileSelect`: the files of the selection, in
      selection order, that are supported and whose key is not in `queue`,
      the queue as it was before the call. */
  function Accepted(queue: seq<FileDesc>, input: seq<FileDesc>): seq<FileDesc>
  {
    if |input| == 0 then []
    else
      (if IsSupportedFormat(input[0]) && !IsDuplicate(queue, input[0]) then [input[0]] else [])
      + Accepted(queue, input[1..])
  }

  /** A file is accepted exactly when it was selected, is supported and is not yet queued. */
  lemma {:induction false} AcceptedMembers(queue: seq<FileDesc>, input: seq<FileDesc>, x: FileDesc)
    ensures x in Accepted(queue, input) <==>
      x in input && IsSupportedFormat(x) && !IsDuplicate(queue, x)
  {
    if |input| > 0 {
      var head := if IsSupportedFormat(input[0]) && !IsDuplicate(queue, input[0]) then [input[0]] else [];
      assert Accepted(queue, input) == head + Accepted(queue, input[1..]);
      AcceptedMembers(queue, input[1..], x);
      assert x in input <==> x == input[0] || x in input[1..];
    }
  }

  /** The filter keeps the selection's order: it distributes over concatenation. */
  lemma {:induction false} AcceptedAppend(queue: seq<FileDesc>, a: seq<FileDesc>, b: seq<FileDesc>)
    ensures Accepted(queue, a + b) == Accepted(queue, a) + Accepted(queue, b)
  {
    if |a| == 0 {
      assert a + b == b;
    } else {
      assert (a + b)[1..] == a[1..] + b;
      AcceptedAppend(queue, a[1..], b);
    }
  }

  lemma {:induction false} AcceptedLength(queue: seq<FileDesc>, input: seq<FileDesc>)
    ensures |Accepted(queue, input)| <= |input|
  {
    if |input| > 0 {
      AcceptedLength(queue, input[1..]);
    }
  }

  /** Every file of the selection is accepted exactly when each is supported and new. */
  lemma {:induction false} AllAccepted(queue: seq<FileDesc>, input: seq<FileDesc>)
    requires forall j :: 0 <= j < |input| ==> IsSupportedFormat(input[j]) && !IsDuplicate(queue, input[j])
    ensures Accepted(queue, input) == input
  {
    if |input| > 0 {
      AllAccepted(queue, input[1..]);
      assert input == [input[0]] + input[1..];
    }
  }

  /** A file whose key is already queued, wherever and by whichever entry, is
      refused when selected on its own. */
  lemma {:induction false} ReselectRefused(queue: seq<FileDesc>, f: FileDesc)
    requires IsDuplicate(queue, f)
    ensures Accepted(queue, [f]) == []
  {
    AcceptedMembers(queue, [f], f);
  }

  /** The filter consults only the queue before the call, so two files with the
      same key in one selection are both let in. */
  lemma SameSelectionNotDeduplicated(queue: seq<FileDesc>, f: FileDesc)
    requires IsSupportedFormat(f) && !IsDuplicate(queue, f)
    ensures Accepted(queue, [f, f]) == [f, f]
  {
    assert [f][1..] == [];
    assert Accepted(queue, [f]) == [f];
    assert [f, f][1..] == [f];
  }

  /** No two entries share a key. */
  predicate DistinctKeys(s: seq<FileDesc>)
  {
    forall i, j :: 0 <= i < j < |s| ==> !SameKey(s[i], s[j])
  }

  lemma {:induction false} AcceptedDistinct(queue: seq<FileDesc>, input: seq<FileDesc>)
    requires DistinctKeys(input)
    ensures DistinctKeys(Accepted(queue, input))
  {
    if |input| > 0 {
      var rest := Accepted(queue, input[1..]);
      assert DistinctKeys(input[1..]) by {
        forall i, j | 0 <= i < j < |input[1..]|
          ensures !SameKey(input[1..][i], input[1..][j])
        {
          assert input[1..][i] == input[i + 1] && input[1..][j] == input[j + 1];
        }
      }
      AcceptedDistinct(queue, input[1..]);
      forall k | 0 <= k < |rest|
        ensures !SameKey(input[0], rest[k])
      {
        AcceptedMembers(queue, input[1..], rest[k]);
        var m :| 0 <= m < |input[1..]| && input[1..][m] == rest[k];
        assert input[m + 1] == rest[k];
      }
    }
  }

  /** The queue's keys stay distinct across a selection that has distinct keys itself. */
  lemma KeysStayDistinct(queue: seq<FileDesc>, input: seq<FileDesc>)
    requires DistinctKeys(queue) && DistinctKeys(input)
    ensures DistinctKeys(queue + Accepted(queue, input))
  {
    var acc := Accepted(queue, input);
    AcceptedDistinct(queue, input);
    forall i, j | 0 <= i < j < |queue + acc|
      ensures !SameKey((queue + acc)[i], (queue + acc)[j])
    {
      if j >= |queue| {
        if i < |queue| {
          AcceptedMembers(queue, input, acc[j - |queue|]);
        } else {
          assert (queue + acc)[i] == acc[i - |queue|] && (queue + acc)[j] == acc[j - |queue|];
        }
      }
    }
  }

  /** ... but not across one that repeats a key: the queue can then hold two entries with the same key. */
  lemma RepeatedKeyEntersQueue(f: FileDesc)
    requires IsSupportedFormat(f)
    ensures !DistinctKeys([] + Accepted([], [f, f]))
  {
    SameSelectionNotDeduplicated([], f);
    assert ([] + Accepted([], [f, f]))[0] == f && ([] + Accepted([], [f, f]))[1] == f;
  }
}
