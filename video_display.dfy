/**
 * How a stored video is shown: in an embedded YouTube or Vimeo player, chosen
 * by substring tests on the link in a fixed order, or in the page's own video
 * player for any other link and for uploaded files.
 */
module VideoDisplay {
  import opened Wrappers
  import opened Strings
  import opened UrlQuery
  import opened ContentStore

  const YouTubeEmbedBase: string := "https://www.youtube.com/embed/"
  const VimeoEmbedBase: string := "https://player.vimeo.com/video/"

  /** The element that shows the video and the address it is given. */
  datatype Display =
    | YouTubeFrame(src: string)   // embedded YouTube player
    | VimeoFrame(src: string)     // embedded Vimeo player
    | Player(src: string)         // the page's own video element

  /** `isYouTubeUrl`: the link mentions `youtube.com` or `youtu.be` anywhere. */
  predicate IsYouTubeUrl(url: string)
  {
    Contains(url, "youtube.com") || Contains(url, "youtu.be")
  }

  /**
   * `getYouTubeVideoId`: the `v` query parameter for a `youtube.com` link
   * (None when the parameter is missing, JavaScript `null`), the last
   * `/`-separated piece for a `youtu.be` link, and empty otherwise.
   */
  function YouTubeVideoId(url: string): Option<string>
  {
    if Contains(url, "youtube.com") then Param(url, "v")
    else if Contains(url, "youtu.be") then Some(LastSegment(url, '/'))
    else Some("")
  }

  /** `isVimeoUrl`: the link mentions `vimeo.com` anywhere. */
  predicate IsVimeoUrl(url: string)
  {
    Contains(url, "vimeo.com")
  }

  /** `getVimeoVideoId`: the last `/`-separated piece of a `vimeo.com` link, empty otherwise. */
  function VimeoVideoId(url: string): string
  {
    if Contains(url, "vimeo.com") then LastSegment(url, '/') else ""
  }

  /** How a template literal renders an id: a missing (`null`) id becomes the text "null". */
  function TemplateText(v: Option<string>): string
  {
    match v
    case None => "null"
    case Some(s) => s
  }

  /**
   * `displayVideoContent`: a record whose source is a link is embedded when
   * the link is a YouTube link, else when it is a Vimeo link; every other
   * record, including any uploaded file, plays its data directly.
   */
  function DisplayFor(content: Record): Display
  {
    if content.source == Some(Url) then
      var url := content.data;
      if IsYouTubeUrl(url) then YouTubeFrame(YouTubeEmbedBase + TemplateText(YouTubeVideoId(url)))
      else if IsVimeoUrl(url) then VimeoFrame(VimeoEmbedBase + VimeoVideoId(url))
      else Player(url)
    else
      Player(content.data)
  }

  /**
   * The choice is made in a fixed order: a YouTube link is embedded by
   * YouTube even when it also mentions Vimeo; a Vimeo link is embedded by
   * Vimeo; everything else, and every record whose source is not a link,
   * plays its data directly. Embed addresses start with the player's base.
   */
  lemma DisplayModes(content: Record)
    ensures var d := DisplayFor(content);
      (d.YouTubeFrame? <==> content.source == Some(Url) && IsYouTubeUrl(content.data)) &&
      (d.VimeoFrame? <==> content.source == Some(Url) && !IsYouTubeUrl(content.data) && IsVimeoUrl(content.data)) &&
      (d.Player? <==> content.source != Some(Url) || (!IsYouTubeUrl(content.data) && !IsVimeoUrl(content.data))) &&
      (d.Player? ==> d.src == content.data) &&
      (d.YouTubeFrame? ==> YouTubeEmbedBase <= d.src) &&
      (d.VimeoFrame? ==> VimeoEmbedBase <= d.src)
  {
  }

  /** A link record that is a YouTube link is embedded at the embed address followed by its id. */
  lemma DisplayYouTube(content: Record)
    requires content.source == Some(Url) && IsYouTubeUrl(content.data)
    ensures DisplayFor(content) == YouTubeFrame(YouTubeEmbedBase + TemplateText(YouTubeVideoId(content.data)))
  {
  }

  /** A link record that is a Vimeo link but not a YouTube link is embedded at the Vimeo address followed by its id. */
  lemma DisplayVimeo(content: Record)
    requires content.source == Some(Url) && !IsYouTubeUrl(content.data) && IsVimeoUrl(content.data)
    ensures DisplayFor(content) == VimeoFrame(VimeoEmbedBase + VimeoVideoId(content.data))
  {
  }

  /** A `youtube.com` link is embedded with its `v` query parameter as the id. */
  lemma YouTubeByParam(content: Record, id: string)
    requires content.source == Some(Url)
    requires Contains(content.data, "youtube.com") && Param(content.data, "v") == Some(id)
    ensures DisplayFor(content) == YouTubeFrame(YouTubeEmbedBase + id)
  {
    DisplayYouTube(content);
  }

  /** A link of the shape `base?v=<id>`, optionally followed by `&` and more pairs, carries `id` as its `v` parameter. */
  lemma WatchLinkParam(base: string, id: string, more: Option<string>)
    requires Contains(base, "youtube.com") && '?' !in base && '#' !in base
    requires '&' !in id && '#' !in id && '+' !in id && '%' !in id
    requires more.Some? ==> '#' !in more.value
    ensures var url := base + "?" + "v=" + id + (if more.Some? then "&" + more.value else "");
      Contains(url, "youtube.com") && Param(url, "v") == Some(id)
  {
    var query := "v" + "=" + id + (if more.Some? then "&" + more.value else "");
    var url := base + "?" + query;
    assert url == base + "?" + "v=" + id + (if more.Some? then "&" + more.value else "");
    assert url == base + ("?" + query);
    ContainsInConcat(base, "?" + query, "youtube.com");
    SearchAfterBase(base, query);
    GetLeadingPair("v", id, more);
  }

  /**
   * A `youtube.com` watch link whose query starts with `v=<id>` is embedded
   * as the YouTube embed address followed by that id.
   */
  lemma YouTubeWatchLink(content: Record, base: string, id: string, more: Option<string>)
    requires Contains(base, "youtube.com") && '?' !in base && '#' !in base
    requires '&' !in id && '#' !in id && '+' !in id && '%' !in id
    requires more.Some? ==> '#' !in more.value
    requires content.source == Some(Url)
    requires content.data == base + "?" + "v=" + id + (if more.Some? then "&" + more.value else "")
    ensures DisplayFor(content) == YouTubeFrame(YouTubeEmbedBase + id)
  {
    WatchLinkParam(base, id, more);
    YouTubeByParam(content, id);
  }

  /**
   * A YouTube link that mentions `youtu.be` but not `youtube.com` is embedded
   * with the text after its last `/` as the id.
   */
  lemma YouTuBeLink(content: Record, prefix: string, id: string)
    requires Contains(prefix, "youtu.be") && '/' !in id
    requires content.source == Some(Url)
    requires content.data == prefix + "/" + id && !Contains(content.data, "youtube.com")
    ensures DisplayFor(content) == YouTubeFrame(YouTubeEmbedBase + id)
  {
    var url := content.data;
    assert Contains(url, "youtu.be") by {
      assert url == prefix + ("/" + id);
      ContainsInConcat(prefix, "/" + id, "youtu.be");
    }
    assert LastSegment(url, '/') == id by {
      assert url == prefix + ['/'] + id;
      LastSegmentAfterSep(prefix, '/', id);
    }
    assert YouTubeVideoId(url) == Some(id);
    DisplayYouTube(content);
  }

  /**
   * A Vimeo link that is not a YouTube link is embedded with its last
   * `/`-separated piece as the id.
   */
  lemma VimeoLink(content: Record, prefix: string, id: string)
    requires Contains(prefix, "vimeo.com") && '/' !in id
    requires content.source == Some(Url)
    requires content.data == prefix + "/" + id && !IsYouTubeUrl(content.data)
    ensures DisplayFor(content) == VimeoFrame(VimeoEmbedBase + id)
  {
    var url := content.data;
    assert Contains(url, "vimeo.com") by {
      assert url == prefix + ("/" + id);
      ContainsInConcat(prefix, "/" + id, "vimeo.com");
    }
    assert LastSegment(url, '/') == id by {
      assert url == prefix + ['/'] + id;
      LastSegmentAfterSep(prefix, '/', id);
    }
    DisplayVimeo(content);
  }

  /** A link record on no recognised host plays the link directly. */
  lemma DisplayOther(content: Record)
    requires content.source == Some(Url) && !IsYouTubeUrl(content.data) && !IsVimeoUrl(content.data)
    ensures DisplayFor(content) == Player(content.data)
  {
  }

  /**
   * A `youtube.com` link without a `v` parameter is still embedded, at the
   * embed address followed by the text "null".
   */
  lemma YouTubeLinkWithoutVideoParam(content: Record)
    requires content.source == Some(Url)
    requires Contains(content.data, "youtube.com") && Param(content.data, "v").None?
    ensures DisplayFor(content) == YouTubeFrame(YouTubeEmbedBase + "null")
  {
  }

  /** The watch link `https://www.youtube.com/watch?v=ABC123` is embedded at the YouTube embed address followed by `ABC123`. */
  lemma YouTubeWatchExample(content: Record)
    requires content.source == Some(Url) && content.data == "https://www.youtube.com/watch?v=ABC123"
    ensures DisplayFor(content) == YouTubeFrame(YouTubeEmbedBase + "ABC123")
  {
    WatchExampleShape();
    YouTubeWatchLink(content, "https://www.youtube.com/watch", "ABC123", None);
  }

  /** The pieces of the watch link used in YouTubeWatchExample. */
  lemma WatchExampleShape()
    ensures var base := "https://www.youtube.com/watch";
      Contains(base, "youtube.com") && '?' !in base && '#' !in base &&
      "https://www.youtube.com/watch?v=ABC123" == base + "?" + "v=" + "ABC123" + ""
  {
    WatchExampleHost();
  }

  /** The path of the watch example mentions `youtube.com`. */
  lemma WatchExampleHost()
    ensures Contains("https://www.youtube.com/watch", "youtube.com")
  {
    assert "https://www.youtube.com/watch" == "https://www." + "youtube.com" + "/watch";
    ContainsMiddle("https://www.", "youtube.com", "/watch");
  }

  /** The short link `https://youtu.be/XYZ789` is embedded at the YouTube embed address followed by `XYZ789`. */
  lemma YouTuBeExample(content: Record)
    requires content.source == Some(Url) && content.data == "https://youtu.be/XYZ789"
    ensures DisplayFor(content) == YouTubeFrame(YouTubeEmbedBase + "XYZ789")
  {
    ShortExampleShape();
    YouTuBeLink(content, "https://youtu.be", "XYZ789");
  }

  /** The pieces of the short link used in YouTuBeExample. */
  lemma ShortExampleShape()
    ensures var url := "https://youtu.be/XYZ789";
      Contains("https://youtu.be", "youtu.be") && url == "https://youtu.be" + "/" + "XYZ789" &&
      !Contains(url, "youtube.com")
  {
    assert "https://youtu.be" == "https://" + "youtu.be" + "";
    ContainsMiddle("https://", "youtu.be", "");
    NotContainedWithoutChar("https://youtu.be/XYZ789", "youtube.com", 'c');
  }

  /** A link on any other host, here `https://example.org/clip.mp4`, plays directly. */
  lemma OtherHostExample(content: Record)
    requires content.source == Some(Url) && content.data == "https://example.org/clip.mp4"
    ensures DisplayFor(content) == Player("https://example.org/clip.mp4")
  {
    OtherHostShape();
    DisplayOther(content);
  }

  /** The example link of OtherHostExample mentions none of the recognised hosts. */
  lemma OtherHostShape()
    ensures var url := "https://example.org/clip.mp4";
      !Contains(url, "youtube.com") && !Contains(url, "youtu.be") && !Contains(url, "vimeo.com")
  {
    OtherHostNotYouTube();
    NotContainedWithoutChar("https://example.org/clip.mp4", "vimeo.com", 'v');
  }

  /** The example link of OtherHostExample has no `y`, so it mentions neither YouTube host. */
  lemma OtherHostNotYouTube()
    ensures !Contains("https://example.org/clip.mp4", "youtube.com")
    ensures !Contains("https://example.org/clip.mp4", "youtu.be")
  {
    NotContainedWithoutChar("https://example.org/clip.mp4", "youtube.com", 'y');
    NotContainedWithoutChar("https://example.org/clip.mp4", "youtu.be", 'y');
  }
}
