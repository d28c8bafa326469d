/** The image list of a local travels through one text column: the SQL side
    concatenates the image URLs with `GROUP_CONCAT(i.url_imagen SEPARATOR ', ')`
    (NULL when the local has no image rows) and the route splits the column back
    with `split(', ')`, turning NULL or "" into the empty list. */
module ImageList {
  import opened Wrappers

  /** The separator written by GROUP_CONCAT and consumed by split. */
  const Separator: string := ", "

  /** `s` holds the separator starting at position `i`. */
  predicate SeparatorAt(s: string, i: int) {
    0 <= i && i + 1 < |s| && s[i] == ',' && s[i + 1] == ' '
  }

  predicate ContainsSeparator(s: string) {
    exists i :: 0 <= i < |s| && SeparatorAt(s, i)
  }

  /** The URLs joined with ", " (the body of GROUP_CONCAT over a non-empty group). */
  function Join(urls: seq<string>): string
    requires urls != []
  {
    if |urls| == 1 then urls[0] else urls[0] + Separator + Join(urls[1..])
  }

  /** GROUP_CONCAT over the group's rows: NULL when the LEFT JOIN found no image. */
  function GroupConcat(urls: seq<string>): (column: Option<string>)
    ensures column.None? <==> urls == []
  {
    if urls == [] then None else Some(Join(urls))
  }

  /** `s.split(', ')`: cut at every occurrence of the separator, scanning from the
      left. There is always at least one piece, and no piece holds the separator. */
  function Split(s: string): (pieces: seq<string>)
    ensures |pieces| >= 1
    ensures forall k :: 0 <= k < |pieces| ==> !ContainsSeparator(pieces[k])
    decreases |s|
  {
    if SeparatorAt(s, 0) then [""] + Split(s[2..])
    else if s == [] then [""]
    else
      var rest := Split(s[1..]);
      var head := [s[0]] + rest[0];
      assert !ContainsSeparator(head) by {
        if SeparatorAt(head, 0) {
          assert SeparatorAt(s, 0);
        }
        forall i | 1 <= i < |head| ensures !SeparatorAt(head, i) {
          if SeparatorAt(head, i) {
            assert SeparatorAt(rest[0], i - 1);
          }
        }
      }
      [head] + rest[1..]
  }

  /** `row.imagenes ? row.imagenes.split(', ') : []`: NULL and "" give no URL;
      any other text gives separator-free pieces that join back to it. */
  function Decode(column: Option<string>): (urls: seq<string>)
    ensures column.None? || column == Some([]) ==> urls == []
    ensures column.Some? && column.value != [] ==> urls != [] && Join(urls) == column.value
    ensures forall k :: 0 <= k < |urls| ==> !ContainsSeparator(urls[k])
  {
    match column
    case None => []
    case Some(s) => if s == [] then [] else JoinSplit(s); Split(s)
  }

  /** Splitting then joining gives back any string. */
  lemma {:induction false} JoinSplit(s: string)
    ensures Join(Split(s)) == s
    decreases |s|
  {
    if SeparatorAt(s, 0) {
      JoinSplit(s[2..]);
      assert s == Separator + s[2..];
    } else if s != [] {
      JoinSplit(s[1..]);
      var rest := Split(s[1..]);
      if |rest| > 1 {
        assert rest == [rest[0]] + rest[1..];
        assert [s[0]] + (rest[0] + Separator + Join(rest[1..])) == [s[0]] + rest[0] + Separator + Join(rest[1..]);
      }
      assert s == [s[0]] + s[1..];
    }
  }

  /** A string without the separator splits into itself. */
  lemma {:induction false} SplitWhole(u: string)
    requires !ContainsSeparator(u)
    ensures Split(u) == [u]
    decreases |u|
  {
    if u != [] {
      assert !SeparatorAt(u, 0);
      NoSeparatorInTail(u);
      SplitWhole(u[1..]);
      assert u == [u[0]] + u[1..];
    }
  }

  /** A separator-free piece followed by the separator is cut off as one piece. */
  lemma {:induction false} SplitFirst(u: string, rest: string)
    requires !ContainsSeparator(u)
    ensures Split(u + Separator + rest) == [u] + Split(rest)
    decreases |u|
  {
    var s := u + Separator + rest;
    if u == [] {
      assert SeparatorAt(s, 0);
      assert s[2..] == rest;
    } else {
      assert !SeparatorAt(s, 0) by {
        if |u| >= 2 {
          assert !SeparatorAt(u, 0);
        }
      }
      NoSeparatorInTail(u);
      assert s[1..] == u[1..] + Separator + rest;
      SplitFirst(u[1..], rest);
      assert u == [u[0]] + u[1..];
    }
  }

  lemma NoSeparatorInTail(u: string)
    requires u != [] && !ContainsSeparator(u)
    ensures !ContainsSeparator(u[1..])
  {
    forall i | 0 <= i < |u| - 1 ensures !SeparatorAt(u[1..], i) {
      assert SeparatorAt(u[1..], i) == SeparatorAt(u, i + 1);
    }
  }

  /** The round trip: joining URLs none of which contains ", " and splitting the
      result gives back the URLs, in order. */
  lemma {:induction false} SplitJoin(urls: seq<string>)
    requires urls != []
    requires forall k :: 0 <= k < |urls| ==> !ContainsSeparator(urls[k])
    ensures Split(Join(urls)) == urls
  {
    if |urls| == 1 {
      SplitWhole(urls[0]);
    } else {
      SplitJoin(urls[1..]);
      SplitFirst(urls[0], Join(urls[1..]));
      assert urls == [urls[0]] + urls[1..];
    }
  }

  /** Only the single empty URL joins to the empty string. */
  lemma JoinEmpty(urls: seq<string>)
    requires urls != []
    ensures Join(urls) == [] <==> urls == [""]
  {
    if |urls| > 1 {
      assert |Join(urls)| >= 2;
    }
  }

  /** What the route returns for a local is the list of its image URLs, as long
      as no URL contains ", ". The one exception is a single empty URL, which
      concatenates to "" and reads back as no image at all. */
  lemma DecodeGroupConcat(urls: seq<string>)
    requires forall k :: 0 <= k < |urls| ==> !ContainsSeparator(urls[k])
    ensures Decode(GroupConcat(urls)) == if urls == [""] then [] else urls
  {
    if urls != [] {
      JoinEmpty(urls);
      SplitJoin(urls);
    }
  }

  /** Gluing two separator-free strings creates no separator unless the first
      ends with ',' and the second starts with ' '. */
  lemma ConcatNoSeparator(a: string, b: string)
    requires !ContainsSeparator(a) && !ContainsSeparator(b)
    requires a == [] || b == [] || a[|a| - 1] != ',' || b[0] != ' '
    ensures !ContainsSeparator(a + b)
  {
    forall i | 0 <= i < |a + b| ensures !SeparatorAt(a + b, i) {
      if SeparatorAt(a + b, i) {
        if i + 1 < |a| {
          assert SeparatorAt(a, i);
        } else if i >= |a| {
          assert SeparatorAt(b, i - |a|);
        }
      }
    }
  }
}
