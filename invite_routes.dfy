/** `POST /api/collab/invite` of the root app: a Warpcast composer deep link carrying
    a greeting to the target creator. The request body is given as already parsed:
    `None` is a body `request.json()` cannot parse. */
module AppInviteRoute {
  import opened Wrappers
  import opened Json
  import PercentEncoding
  import PercentDecoding

  const MISSING_TARGET := "Missing target FID or username"
  const GENERATE_FAILED := "Failed to generate invitation link"
  const GENERATED := "Collaboration invitation link generated successfully"
  const DEFAULT_MESSAGE := "I'd love to collaborate on something together. Let's connect!"
  const GREETING := "Hey @"
  /** `"! 👋\n\n"`. */
  const WAVE := "! \U{1F44B}\n\n"
  const HASHTAGS := "\n\n#CreatorCollab #Farcaster"
  const DEEP_LINK_PREFIX := "https://warpcast.com/~/compose?text="

  datatype InviteResponse =
    | InviteError(status: int, error: string)
    | InviteLink(success: bool, deepLink: string, message: string)

  /** `${message || DEFAULT_MESSAGE}`: any falsy message, the empty string included,
      gives the default sentence. */
  function MessageOrDefault(message: Option<Json>): (r: string)
    ensures Truthy(message) ==> r == ToJsString(message.value)
    ensures !Truthy(message) ==> r == DEFAULT_MESSAGE
  {
    if Truthy(message) then ToJsString(message.value) else DEFAULT_MESSAGE
  }

  /** The text the composer is prefilled with. */
  function InviteText(username: string, message: string): string {
    GREETING + username + WAVE + message + HASHTAGS
  }

  /** The greeting names the target, the hashtags close the text, and what lies
      between them is exactly the message. */
  lemma InviteTextParts(username: string, message: string)
    ensures var t, head := InviteText(username, message), GREETING + username + WAVE;
      && |t| == |head| + |message| + |HASHTAGS|
      && t[..|head|] == head
      && t[|head|..|head| + |message|] == message
      && t[|head| + |message|..] == HASHTAGS
  {
    var head := GREETING + username + WAVE;
    var t := InviteText(username, message);
    assert t == head + message + HASHTAGS;
  }

  /** The handler. A `null` body throws while it is destructured, inside the `try`. */
  function Post(body: Option<Json>): (r: InviteResponse)
    ensures IsNullish(body) ==> r == InviteError(500, GENERATE_FAILED)
    ensures var fid, username := Field(body, "targetFid"), Field(body, "targetUsername");
      !IsNullish(body) && !(Truthy(fid) && Truthy(username)) ==> r == InviteError(400, MISSING_TARGET)
    ensures var fid, username := Field(body, "targetFid"), Field(body, "targetUsername");
      !IsNullish(body) && Truthy(fid) && Truthy(username) ==>
        r == InviteLink(true, DEEP_LINK_PREFIX + PercentEncoding.EncodeUriComponent(
               InviteText(ToJsString(username.value), MessageOrDefault(Field(body, "message")))), GENERATED)
  {
    if IsNullish(body) then InviteError(500, GENERATE_FAILED)
    else
      var fid, username := Field(body, "targetFid"), Field(body, "targetUsername");
      if !Truthy(fid) || !Truthy(username) then InviteError(400, MISSING_TARGET)
      else
        var text := InviteText(ToJsString(username.value), MessageOrDefault(Field(body, "message")));
        InviteLink(true, DEEP_LINK_PREFIX + PercentEncoding.EncodeUriComponent(text), GENERATED)
  }

  /** The deep link's `text` value holds no `&` or `#`, so it is one query value, and
      decoding it gives the composed text back. */
  lemma DeepLinkCarriesText(body: Option<Json>)
    requires Post(body).InviteLink?
    ensures var link := Post(body).deepLink;
      var username := Field(body, "targetUsername").value;
      var value := link[|DEEP_LINK_PREFIX|..];
      && |DEEP_LINK_PREFIX| <= |link| && link[..|DEEP_LINK_PREFIX|] == DEEP_LINK_PREFIX
      && (forall k :: 0 <= k < |value| ==> value[k] != '&' && value[k] != '#')
      && PercentDecoding.FormDecode(value) ==
           Some(InviteText(ToJsString(username), MessageOrDefault(Field(body, "message"))))
  {
    var username := Field(body, "targetUsername").value;
    var text := InviteText(ToJsString(username), MessageOrDefault(Field(body, "message")));
    assert Post(body).deepLink == DEEP_LINK_PREFIX + PercentEncoding.EncodeUriComponent(text);
    EncodedValueReadsBack(DEEP_LINK_PREFIX, text);
  }

  /** A URL ending in an encoded text: the value after the prefix is one query value
      and decodes to the text. */
  lemma EncodedValueReadsBack(prefix: string, text: string)
    ensures var link := prefix + PercentEncoding.EncodeUriComponent(text);
      var value := link[|prefix|..];
      && link[..|prefix|] == prefix
      && (forall k :: 0 <= k < |value| ==> value[k] != '&' && value[k] != '#')
      && PercentDecoding.FormDecode(value) == Some(text)
  {
    var link := prefix + PercentEncoding.EncodeUriComponent(text);
    assert link[|prefix|..] == PercentEncoding.EncodeUriComponent(text);
    assert link[..|prefix|] == prefix;
    PercentDecoding.DecodeEncodeUriComponent(text, true);
  }
}

/** `POST /api/collab/invite` of the mini app: a composer link whose text names the
    recipient, with fallbacks. A body that does not parse is `null`; `None` stands for
    it as well. The public URL variable is a parameter. */
module MinikitInviteRoute {
  import opened Wrappers
  import opened Json
  import JsString
  import Params
  import PercentEncoding
  import PercentDecoding

  const COMPOSE_URL := "https://warpcast.com/~/compose"
  const CREATOR_FALLBACK := "a creator"

  datatype ComposerResponse = ComposerResponse(url: string)

  /** `to`: `@username` when the username is truthy, else `fid:N` when the fid is
      truthy (a zero fid is not), else `a creator`. */
  function Recipient(body: Option<Json>): (to: string)
    ensures var username := Field(body, "toUsername");
      Truthy(username) ==> to == "@" + ToJsString(username.value)
    ensures var username, fid := Field(body, "toUsername"), Field(body, "toFid");
      !Truthy(username) && Truthy(fid) ==> to == "fid:" + ToJsString(fid.value)
    ensures !Truthy(Field(body, "toUsername")) && !Truthy(Field(body, "toFid")) ==> to == CREATOR_FALLBACK
  {
    var username, fid := Field(body, "toUsername"), Field(body, "toFid");
    if Truthy(username) then "@" + ToJsString(username.value)
    else if Truthy(fid) then "fid:" + ToJsString(fid.value)
    else CREATOR_FALLBACK
  }

  /** `process.env.NEXT_PUBLIC_URL || ''`. */
  function BaseUrl(publicUrl: Option<string>): string {
    if publicUrl.Some? then publicUrl.value else ""
  }

  /** `body?.text || <default>`: a truthy text is used as it is, otherwise the default
      sentence names the recipient and ends with the base URL. */
  function Message(body: Option<Json>, publicUrl: Option<string>): (m: string)
    ensures var text := Field(body, "text");
      Truthy(text) ==> m == ToJsString(text.value)
    ensures !Truthy(Field(body, "text")) ==>
      m == "Let's collaborate " + Recipient(body) + "! Check out our match in Creator Growth Hub: " + BaseUrl(publicUrl)
  {
    var text := Field(body, "text");
    if Truthy(text) then ToJsString(text.value)
    else "Let's collaborate " + Recipient(body) + "! Check out our match in Creator Growth Hub: " + BaseUrl(publicUrl)
  }

  /** The handler: `searchParams.set('text', message)` on the bare composer URL. */
  function Post(body: Option<Json>, publicUrl: Option<string>): (r: ComposerResponse)
    ensures r.url == COMPOSE_URL + "?" + ("text=" + PercentEncoding.FormEncode(Message(body, publicUrl)))
  {
    var message := Message(body, publicUrl);
    TextQuerySerialized(message);
    ComposerResponse(COMPOSE_URL + "?" + Params.Serialize(Params.Put([], "text", message)))
  }

  /** The query `set('text', message)` gives an empty parameter list. */
  lemma TextQuerySerialized(message: string)
    ensures Params.Serialize(Params.Put([], "text", message)) == "text=" + PercentEncoding.FormEncode(message)
  {
    var name := "text";
    assert Params.Put([], name, message) == [(name, message)];
    assert forall k :: 0 <= k < |name| ==> PercentEncoding.IsFormSafe(name[k]) by {
      assert name[0] == 't' && name[1] == 'e' && name[2] == 'x' && name[3] == 't';
    }
    PercentEncoding.FormEncodeOfSafe(name);
  }

  /** The returned URL has exactly one query parameter; it is named `text`, and its
      value decodes to the message. */
  lemma ComposerTextReadsBack(body: Option<Json>, publicUrl: Option<string>)
    ensures var url, prefix := Post(body, publicUrl).url, COMPOSE_URL + "?";
      var query := url[|prefix|..];
      var eq := JsString.FirstIndexOf(query, '=');
      && |prefix| <= |url| && url[..|prefix|] == prefix
      && JsString.SplitOn(query, '&') == [query]
      && eq < |query| && query[..eq] == "text"
      && PercentDecoding.FormDecode(query[eq + 1..]) == Some(Message(body, publicUrl))
  {
    TextUrlReadsBack(COMPOSE_URL + "?", Message(body, publicUrl));
  }

  /** The URL `prefix` + `text=<encoded message>`. */
  lemma TextUrlReadsBack(prefix: string, message: string)
    ensures var url := prefix + ("text=" + PercentEncoding.FormEncode(message));
      var query := url[|prefix|..];
      var eq := JsString.FirstIndexOf(query, '=');
      && url[..|prefix|] == prefix
      && JsString.SplitOn(query, '&') == [query]
      && eq < |query| && query[..eq] == "text"
      && PercentDecoding.FormDecode(query[eq + 1..]) == Some(message)
  {
    var value := PercentEncoding.FormEncode(message);
    var url := prefix + ("text=" + value);
    assert url[|prefix|..] == "text=" + value;
    assert url[..|prefix|] == prefix;
    TextQuery(value);
    PercentDecoding.FormDecodeEncode(message);
  }

  /** `text=<value>` for a value without `&`: one pair, named `text`. */
  lemma TextQuery(value: string)
    requires forall k :: 0 <= k < |value| ==> value[k] != '&'
    ensures var q := "text=" + value;
      && JsString.SplitOn(q, '&') == [q]
      && JsString.FirstIndexOf(q, '=') == 4
      && q[..4] == "text" && q[5..] == value
  {
    var q := "text=" + value;
    assert q[0] == 't' && q[1] == 'e' && q[2] == 'x' && q[3] == 't' && q[4] == '=';
    forall k | 0 <= k < |q|
      ensures q[k] != '&'
    {
      if k >= 5 {
        assert q[k] == value[k - 5];
      }
    }
    JsString.FirstIndexOfAt(q, '=', 4);
    assert JsString.FirstIndexOf(q, '&') == |q|;
  }
}
