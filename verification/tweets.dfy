/**
 The status objects the timeline API returns, reduced to the fields the
 downloader reads, and the unwrapping of retweets and quotes.
 */
module Tweets {
  import opened Wrappers

  /** A parsed `created_at`: the instant that orders statuses and the calendar
      day that `toISODate` renders. Parsing the API's text format is left to
      the date library and is not modelled. */
  datatype Date = Date(instant: int, isoDate: string)

  /** `media.type`; any other string the API might send is `Unknown`. */
  datatype MediaType = Photo | Video | AnimatedGif | Unknown(name: string)

  /** One encoding of a video or GIF (`video_info.variants[i]`). */
  datatype Variant = Variant(contentType: string, bitrate: int, url: string)

  /** One entry of `extended_entities.media`. */
  datatype Media = Media(kind: MediaType, mediaUrl: string, variants: seq<Variant>)

  /** A status; `media` is empty when `extended_entities.media` is absent. */
  datatype Status = Status(
    id: string,
    author: string,
    createdAt: Date,
    media: seq<Media>,
    retweeted: Option<Status>,
    quoted: Option<Status>)

  /** A status wraps other content when it carries a retweeted or a quoted status. */
  predicate IsRetweet(s: Status) {
    s.retweeted.Some? || s.quoted.Some?
  }

  /** The tweet whose media, date and id the downloader uses: the retweeted
      status, else the quoted one, else the status itself. */
  function Canonical(s: Status): (t: Status)
    ensures t == s <==> !IsRetweet(s)
    ensures s.retweeted.Some? ==> t == s.retweeted.value
    ensures s.retweeted.None? && s.quoted.Some? ==> t == s.quoted.value
  {
    if s.retweeted.Some? then s.retweeted.value
    else if s.quoted.Some? then s.quoted.value
    else s
  }
}
