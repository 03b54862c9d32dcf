/** End-to-end examples of resolution and acquisition on small feeds. */
module Scenarios {
  import opened Wrappers
  import opened Text
  import opened Soup
  import opened Rss
  import opened Naming
  import opened Acquire

  function Title(s: string): Node {
    Node("title", map[], Some(s), [])
  }

  function Enclosure(url: string, mime: string): Node {
    Node("enclosure", map["url" := url, "type" := mime], None, [])
  }

  function Item(children: seq<Node>): Node {
    Node("item", map[], None, children)
  }

  /** A feed with a channel title and two episodes, each a title followed by its enclosure. */
  function TwoEpisodes(): Document {
    [Node("rss", map[], None, [
      Node("channel", map[], None, [
        Title("Show"),
        Item([Title("Episode 5"), Enclosure("https://x/5.m4a", "audio/mp4")]),
        Item([Title("Episode 6"), Enclosure("https://x/6.m4a", "audio/mp4")])])])]
  }

  /** The only title tags of the feed are the channel's and the two episodes'. */
  lemma TitlesOfTwoEpisodes(pattern: string, q: Path)
    requires TitleAt(TwoEpisodes(), pattern, q)
    ensures || (q == [0, 0, 0] && NodeAt(TwoEpisodes(), q) == Title("Show"))
            || (q == [0, 0, 1, 0] && NodeAt(TwoEpisodes(), q) == Title("Episode 5"))
            || (q == [0, 0, 2, 0] && NodeAt(TwoEpisodes(), q) == Title("Episode 6"))
  {
    var doc := TwoEpisodes();
    var channel := doc[0].children[0].children;
    assert q[0] == 0 && |q| > 1;
    var q1 := q[1..];
    assert ValidPath(doc[0].children, q1) && NodeAt(doc, q) == NodeAt(doc[0].children, q1);
    assert q1[0] == 0 && |q1| > 1;
    var q2 := q1[1..];
    assert ValidPath(channel, q2) && NodeAt(doc, q) == NodeAt(channel, q2);
    assert q2[0] < 3;
    if q2[0] == 0 {
      LeafPath(channel, q2);
      assert q == [q[0], q1[0], q2[0]];
    } else {
      assert |q2| > 1;
      var q3 := q2[1..];
      assert ValidPath(channel[q2[0]].children, q3) && NodeAt(doc, q) == NodeAt(channel[q2[0]].children, q3);
      var item := channel[q2[0]].children;
      assert q3[0] < |item| == 2;
      assert item[q3[0]].children == [];
      LeafPath(item, q3);
      assert q3[0] == 0;
      assert q == [q[0], q1[0], q2[0], q3[0]];
    }
  }

  /** Of the feeds' titles, "Episode 5" matches only "Episode 5". */
  lemma Episode5Matches()
    ensures IsTitleFor(Title("Episode 5"), "Episode 5")
    ensures !IsTitleFor(Title("Episode 6"), "Episode 5") && !IsTitleFor(Title("Show"), "Episode 5")
  {
    SameLengthContains("Episode 5", "Episode 5");
    SameLengthContains("Episode 6", "Episode 5");
    LongerIsNotContained("Show", "Episode 5");
  }

  /** Of the feeds' titles, "Show" matches only "Show". */
  lemma ShowMatches()
    ensures IsTitleFor(Title("Show"), "Show")
    ensures !IsTitleFor(Title("Episode 5"), "Show") && !IsTitleFor(Title("Episode 6"), "Show")
  {
    SameLengthContains("Show", "Show");
    MissingCharIsNotContained("Episode 5", "Show", 'S');
    MissingCharIsNotContained("Episode 6", "Show", 'S');
  }

  lemma OnlyEpisode5()
    ensures OnlyTitleAt(TwoEpisodes(), "Episode 5", [0, 0, 1, 0])
  {
    var doc := TwoEpisodes();
    Episode5Matches();
    assert NodeAt(doc, [0, 0, 1, 0]) == Title("Episode 5");
    forall q | TitleAt(doc, "Episode 5", q) ensures q == [0, 0, 1, 0] {
      TitlesOfTwoEpisodes("Episode 5", q);
    }
  }

  /** Scenario A: the one title "Episode 5" resolves to the URL of the enclosure beside it. */
  lemma ScenarioUniqueMatch()
    ensures ParseRss(TwoEpisodes(), "Episode 5") == Success("https://x/5.m4a")
  {
    var doc := TwoEpisodes();
    var p: Path := [0, 0, 1, 0];
    OnlyEpisode5();
    var sibs := SiblingList(doc, p);
    assert sibs == [Title("Episode 5"), Enclosure("https://x/5.m4a", "audio/mp4")];
    assert IsPrefix("audio", "audio/mp4");
    assert OnlyEnclosureAfter(sibs, Last(p), 1);
    EnclosureFound(doc, "Episode 5", p, 1);
  }

  /** Scenario B: "Episode" matches both episode titles, so resolution is ambiguous. */
  lemma ScenarioAmbiguousTitle()
    ensures ParseRss(TwoEpisodes(), "Episode") == Failure(Multiple("Episode"))
  {
    var doc := TwoEpisodes();
    assert NodeAt(doc, [0, 0, 1, 0]) == Title("Episode 5");
    assert NodeAt(doc, [0, 0, 2, 0]) == Title("Episode 6");
    assert IsPrefix("Episode", "Episode 5") && IsPrefix("Episode", "Episode 6");
    TitleAmbiguous(doc, "Episode", [0, 0, 1, 0], [0, 0, 2, 0]);
  }

  /**
   * The channel title matches "Show" alone, but the enclosures after it sit
   * inside the items, not beside the title, so none of them counts.
   */
  lemma ScenarioNoEnclosureBesideTitle()
    ensures ParseRss(TwoEpisodes(), "Show") == Failure(NotFound("enclosure"))
  {
    var doc := TwoEpisodes();
    var p: Path := [0, 0, 0];
    OnlyShow();
    var sibs := SiblingList(doc, p);
    assert sibs == doc[0].children[0].children;
    assert sibs[0].name == "title" && sibs[1].name == "item" && sibs[2].name == "item";
    assert forall j :: !EnclosureAfter(sibs, Last(p), j);
    EnclosureNotFound(doc, "Show", p);
  }

  lemma OnlyShow()
    ensures OnlyTitleAt(TwoEpisodes(), "Show", [0, 0, 0])
  {
    var doc := TwoEpisodes();
    ShowMatches();
    assert NodeAt(doc, [0, 0, 0]) == Title("Show");
    forall q | TitleAt(doc, "Show", q) ensures q == [0, 0, 0] {
      TitlesOfTwoEpisodes("Show", q);
    }
  }

  /** Scenario A end to end: the feed, then the enclosure are fetched, and the audio is written to "5.m4a". */
  lemma ScenarioFeedAcquisition(info: map<string, string>)
    ensures AcquireAudio("https://x/feed.xml", Some("Episode 5"), TwoEpisodes(), info)
      == Run([HttpGet("https://x/feed.xml"), HttpGet("https://x/5.m4a"), WriteBytes("5.m4a", "https://x/5.m4a")],
             Success("5.m4a"))
  {
    ScenarioUniqueMatch();
    FileOfEpisode5();
    FeedBranch("https://x/feed.xml", Some("Episode 5"), TwoEpisodes(), info, info);
    ResolutionOutcome("https://x/feed.xml", ParseRss(TwoEpisodes(), "Episode 5"));
  }

  lemma FileOfEpisode5()
    ensures FeedAudioFile("https://x/5.m4a") == "5.m4a"
  {
    var url := "https://x/5.m4a";
    assert url[|url| - 5..] == "5.m4a" && url[|url| - 6] == '/';
    assert FinalSegment(url, "5.m4a");
    FinalSegmentIsUnique(url, FeedAudioFile(url), "5.m4a");
  }

  /** Scenario C: without a title the downloader alone runs, and the file is "<id>.<ext>". */
  lemma ScenarioDirectAcquisition(feed: Document)
    ensures AcquireAudio("https://example.com/clip.mp4", None, feed, map["id" := "clip", "ext" := "m4a"])
      == Run([YtDlpDownload("https://example.com/clip.mp4")], Success("clip.m4a"))
  {
    var info := map["id" := "clip", "ext" := "m4a"];
    DirectBranch("https://example.com/clip.mp4", None, feed, feed, info);
    assert info["id"] + "." + info["ext"] == "clip.m4a";
  }

  /**
   * An item whose audio enclosures all lie where the resolver does not look:
   * one before the title, one nested in a sibling, one in the next item. The
   * siblings after the title are a video enclosure and an enclosure without a type.
   */
  function Crowded(): Document {
    [Node("channel", map[], None, [
      Item([
        Enclosure("https://x/early.mp3", "audio/mpeg"),
        Title("Episode 5"),
        Node("group", map[], None, [Enclosure("https://x/nested.mp3", "audio/mpeg")]),
        Enclosure("https://x/5.mp4", "video/mp4"),
        Node("enclosure", map["url" := "https://x/untyped"], None, [])]),
      Item([Title("Episode 6"), Enclosure("https://x/6.mp3", "audio/mpeg")])])]
  }

  lemma TitlesOfCrowded(pattern: string, q: Path)
    requires TitleAt(Crowded(), pattern, q)
    ensures || (q == [0, 0, 1] && NodeAt(Crowded(), q) == Title("Episode 5"))
            || (q == [0, 1, 0] && NodeAt(Crowded(), q) == Title("Episode 6"))
  {
    var doc := Crowded();
    var items := doc[0].children;
    assert q[0] == 0 && |q| > 1;
    var q1 := q[1..];
    assert ValidPath(items, q1) && NodeAt(doc, q) == NodeAt(items, q1);
    assert q1[0] < 2 && |q1| > 1;
    var q2 := q1[1..];
    var item := items[q1[0]].children;
    assert ValidPath(item, q2) && NodeAt(doc, q) == NodeAt(item, q2);
    if q1[0] == 0 && q2[0] == 2 {
      var group := item[2].children;
      assert |q2| > 1;
      var q3 := q2[1..];
      assert ValidPath(group, q3) && NodeAt(doc, q) == NodeAt(group, q3);
      LeafPath(group, q3);
      assert false;
    }
    assert item[q2[0]].children == [];
    LeafPath(item, q2);
    assert q == [q[0], q1[0], q2[0]];
  }

  /** Audio enclosures before the title, below a sibling or in another item never count. */
  lemma ScenarioEnclosuresOutOfReach()
    ensures ParseRss(Crowded(), "Episode 5") == Failure(NotFound("enclosure"))
  {
    var doc := Crowded();
    var p: Path := [0, 0, 1];
    OnlyEpisode5InCrowded();
    var sibs := SiblingList(doc, p);
    assert sibs == doc[0].children[0].children;
    NoAudioAfterTitle();
    EnclosureNotFound(doc, "Episode 5", p);
  }

  lemma OnlyEpisode5InCrowded()
    ensures OnlyTitleAt(Crowded(), "Episode 5", [0, 0, 1])
  {
    var doc := Crowded();
    Episode5Matches();
    assert NodeAt(doc, [0, 0, 1]) == Title("Episode 5");
    forall q | TitleAt(doc, "Episode 5", q) ensures q == [0, 0, 1] {
      TitlesOfCrowded("Episode 5", q);
    }
  }

  /** After the title of the crowded item there is a group, a video enclosure and an untyped one. */
  lemma NoAudioAfterTitle()
    ensures forall j :: !EnclosureAfter(Crowded()[0].children[0].children, 1, j)
  {
    var sibs := Crowded()[0].children[0].children;
    assert sibs[2].name == "group";
    assert sibs[3] == Enclosure("https://x/5.mp4", "video/mp4");
    VideoIsNotAudio();
    assert "type" !in sibs[4].attrs;
  }

  lemma VideoIsNotAudio()
    ensures !IsAudioEnclosure(Enclosure("https://x/5.mp4", "video/mp4"))
  {
    MissingCharIsNotContained("video/mp4", "audio", 'a');
  }

  /** Two audio enclosures after the title: an error, never the first of them. */
  function TwoEnclosures(): Document {
    [Item([
      Title("Episode 5"),
      Enclosure("https://x/5.m4a", "audio/mp4"),
      Enclosure("https://x/5.mp3", "audio/mpeg")])]
  }

  lemma ScenarioAmbiguousEnclosure()
    ensures ParseRss(TwoEnclosures(), "Episode 5") == Failure(Multiple("enclosure"))
  {
    var doc := TwoEnclosures();
    var p: Path := [0, 0];
    OnlyEpisode5OfTwoEnclosures();
    var sibs := SiblingList(doc, p);
    assert sibs == doc[0].children;
    assert IsPrefix("audio", "audio/mp4") && IsPrefix("audio", "audio/mpeg");
    EnclosureAmbiguous(doc, "Episode 5", p, 1, 2);
  }

  lemma TitlesOfTwoEnclosures(pattern: string, q: Path)
    requires TitleAt(TwoEnclosures(), pattern, q)
    ensures q == [0, 0] && NodeAt(TwoEnclosures(), q) == Title("Episode 5")
  {
    var doc := TwoEnclosures();
    var item := doc[0].children;
    assert q[0] == 0 && |q| > 1;
    assert ValidPath(item, q[1..]) && NodeAt(doc, q) == NodeAt(item, q[1..]);
    LeafPath(item, q[1..]);
    assert q == [q[0], q[1..][0]];
  }

  lemma OnlyEpisode5OfTwoEnclosures()
    ensures OnlyTitleAt(TwoEnclosures(), "Episode 5", [0, 0])
  {
    var doc := TwoEnclosures();
    Episode5Matches();
    assert NodeAt(doc, [0, 0]) == Title("Episode 5");
    forall q | TitleAt(doc, "Episode 5", q) ensures q == [0, 0] {
      TitlesOfTwoEnclosures("Episode 5", q);
    }
  }
}
