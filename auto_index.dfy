/** The generated directory listing of worker(): a fixed head naming the
    request path, one paragraph per readdir entry except "." and "..", and a
    fixed foot. Directories get a '/' after their name in the link and in
    its text. */
module AutoIndex {
  import opened Files

  predicate IsDotEntry(name: string)
  {
    name == "." || name == ".."
  }

  /** The entries the listing shows, in readdir order. */
  function Visible(entries: seq<Entry>): seq<Entry>
    decreases |entries|
  {
    if entries == [] then []
    else
      var last := entries[|entries| - 1];
      Visible(entries[..|entries| - 1]) + (if IsDotEntry(last.name) then [] else [last])
  }

  /** The name as shown: with '/' appended for a directory. */
  function Shown(e: Entry): string
  {
    e.name + (if e.isDir then "/" else "")
  }

  function EntryLink(e: Entry): string
  {
    "    <p><a href=\"" + Shown(e) + "\">" + Shown(e) + "</a></p>\r\n"
  }

  /** The links of the given entries, one after another. */
  function Links(entries: seq<Entry>): string
    decreases |entries|
  {
    if entries == [] then []
    else Links(entries[..|entries| - 1]) + EntryLink(entries[|entries| - 1])
  }

  function PageHead(path: string): string
  {
    "<!doctype html>\r\n  <head>\r\n    <title>" + path
    + "</title>\r\n  </head>\r\n  <body>\r\n    <a href=\"..\">&lt;&lt;</a><h2>PATH: " + path
    + "</h2>\r\n"
  }

  const PageFoot := "  </body>\r\n</html>"

  /** The page served for directory `path` with the given readdir entries. */
  function ListingPage(path: string, entries: seq<Entry>): string
  {
    PageHead(path) + Links(Visible(entries)) + PageFoot
  }

  /** The listing as worker() writes it: the head, the readdir loop, the foot. */
  method BuildListing(path: string, entries: seq<Entry>) returns (page: string)
    ensures page == ListingPage(path, entries)
    ensures |page| > 0
  {
    page := "<!doctype html>\r\n  <head>\r\n    <title>";
    page := page + path;
    page := page + "</title>\r\n  </head>\r\n  <body>\r\n    <a href=\"..\">&lt;&lt;</a><h2>PATH: ";
    page := page + path;
    page := page + "</h2>\r\n";
    assert page == PageHead(path);
    page := AppendLinks(page, entries);
    page := page + "  </body>\r\n</html>";
  }

  /** The readdir loop: one paragraph per entry other than "." and "..". */
  method AppendLinks(head: string, entries: seq<Entry>) returns (page: string)
    ensures page == head + Links(Visible(entries))
  {
    page := head;
    assert entries[..0] == [];
    var i := 0;
    while i < |entries|
      invariant 0 <= i <= |entries|
      invariant page == head + Links(Visible(entries[..i]))
    {
      var dp := entries[i];
      if dp.name != "." && dp.name != ".." {
        page := AppendLink(page, dp);
        AppendAssoc(head, Links(Visible(entries[..i])), EntryLink(dp));
      }
      VisibleStep(entries, i);
      i := i + 1;
    }
    assert entries[..i] == entries;
  }

  /** The appends of one readdir entry: the link target, then the link text,
      each with '/' after a directory's name. */
  method AppendLink(before: string, dp: Entry) returns (page: string)
    ensures page == before + EntryLink(dp)
  {
    var isDir := false;
    page := before + "    <p><a href=\"";
    page := page + dp.name;
    if dp.isDir {
      isDir := true;
      page := page + "/";
    }
    ghost var hrefDone := page;
    assert hrefDone == before + "    <p><a href=\"" + Shown(dp);
    page := page + "\">";
    page := page + dp.name;
    if isDir {
      page := page + "/";
    }
    assert page == hrefDone + "\">" + Shown(dp);
    page := page + "</a></p>\r\n";
    LinkPieces(before, dp);
  }

  lemma AppendAssoc(a: string, b: string, c: string)
    ensures (a + b) + c == a + (b + c)
  {
  }

  /** The pieces the loop appends for one entry make up its paragraph. */
  lemma LinkPieces(before: string, e: Entry)
    ensures before + "    <p><a href=\"" + Shown(e) + "\">" + Shown(e) + "</a></p>\r\n" == before + EntryLink(e)
  {
  }

  /** One readdir step: the listing grows by the entry's paragraph, or not at
      all for "." and "..". */
  lemma VisibleStep(entries: seq<Entry>, i: nat)
    requires i < |entries|
    ensures Links(Visible(entries[..i + 1])) ==
      Links(Visible(entries[..i])) + (if IsDotEntry(entries[i].name) then "" else EntryLink(entries[i]))
  {
    var v := Visible(entries[..i]);
    assert entries[..i + 1][..i] == entries[..i];
    if !IsDotEntry(entries[i].name) {
      assert Visible(entries[..i + 1]) == v + [entries[i]];
      assert (v + [entries[i]])[..|v|] == v;
    } else {
      assert Visible(entries[..i + 1]) == v;
    }
  }

  /** An entry is listed exactly when it is in the directory and is neither
      "." nor "..". */
  lemma {:induction false} VisibleMembers(entries: seq<Entry>, e: Entry)
    ensures e in Visible(entries) <==> e in entries && !IsDotEntry(e.name)
    decreases |entries|
  {
    if entries != [] {
      var init := entries[..|entries| - 1];
      VisibleMembers(init, e);
      assert entries == init + [entries[|entries| - 1]];
    }
  }

  /** Every shown entry appears as often as readdir returned it. */
  lemma {:induction false} VisibleCounts(entries: seq<Entry>)
    ensures forall e: Entry :: !IsDotEntry(e.name) ==> multiset(Visible(entries))[e] == multiset(entries)[e]
    ensures forall e: Entry :: IsDotEntry(e.name) ==> multiset(Visible(entries))[e] == 0
    decreases |entries|
  {
    if entries != [] {
      var init := entries[..|entries| - 1];
      VisibleCounts(init);
      assert entries == init + [entries[|entries| - 1]];
    }
  }

  /** The listing keeps readdir order: it distributes over concatenation. */
  lemma {:induction false} VisibleAppend(a: seq<Entry>, b: seq<Entry>)
    ensures Visible(a + b) == Visible(a) + Visible(b)
    decreases |b|
  {
    if b == [] {
      assert a + b == a;
    } else {
      var init := b[..|b| - 1];
      VisibleAppend(a, init);
      assert (a + b)[..|a + b| - 1] == a + init;
    }
  }

  /** A single entry's paragraph, with the same shown name in href and text. */
  lemma SingleEntryListing(path: string, e: Entry)
    ensures ListingPage(path, [e]) ==
      PageHead(path) + (if IsDotEntry(e.name) then "" else EntryLink(e)) + PageFoot
  {
    assert [e][..0] == [];
    if !IsDotEntry(e.name) {
      assert Visible([e]) == [e];
      assert Links([e]) == EntryLink(e);
    } else {
      assert Visible([e]) == [];
    }
  }
}
