/** The response extraction and request construction of `llm/services/anthropic.py`.
    The SDK call itself is a parameter. */
module Anthropic {
  import opened Wrappers
  import opened Sequences

  /** One content block of a reply: its `type` tag and, for text blocks, its `text`. */
  datatype ContentItem = ContentItem(kind: string, text: string)

  /** The SDK's `Message`, reduced to its content blocks. */
  datatype Message = Message(content: seq<ContentItem>)

  type Bytes = seq<bv8>

  /** The `source` dictionary of an image entry. */
  datatype ImageSource = ImageSource(sourceType: string, mediaType: string, data: Bytes)

  /** One element of the `messages` list sent to the API. */
  datatype Entry =
    | ImageEntry(source: ImageSource)
    | UserEntry(role: string, content: string)

  /** The arguments passed to `messages.create`, apart from the model name. */
  datatype Request = Request(maxTokens: Option<int>, messages: seq<Entry>)

  const DefaultMaxTokens: int := 1024
  const NotIterableMessage: string := "'NoneType' object is not iterable"

  predicate IsText(item: ContentItem)
  {
    item.kind == "text"
  }

  /** What one block adds to the extracted text. */
  function Contribution(item: ContentItem): string
  {
    if IsText(item) then item.text else ""
  }

  /** The text of the text blocks of `content`, concatenated in order. */
  function TextOf(content: seq<ContentItem>): string
  {
    if content == [] then ""
    else TextOf(content[..|content| - 1]) + Contribution(content[|content| - 1])
  }

  /** The sum of the lengths of the texts of the text blocks. */
  function TextLength(content: seq<ContentItem>): nat
  {
    if content == [] then 0
    else (if IsText(content[0]) then |content[0].text| else 0) + TextLength(content[1..])
  }

  /** Accumulates the text of every `"text"` block of the reply, in order. */
  method ExtractMessage(message: Message) returns (text: string)
    ensures text == TextOf(message.content)
  {
    var content := message.content;
    text := "";
    for i := 0 to |content|
      invariant text == TextOf(content[..i])
    {
      assert content[..i + 1][..i] == content[..i];
      var item := content[i];
      if item.kind == "text" {
        text := text + item.text;
      }
    }
    assert content[..|content|] == content;
  }

  /** One more block adds exactly its contribution. */
  lemma TextOfSnoc(content: seq<ContentItem>, item: ContentItem)
    ensures TextOf(content + [item]) == TextOf(content) + Contribution(item)
  {
    assert (content + [item])[..|content|] == content;
  }

  /** Extraction distributes over concatenation of the content lists. */
  lemma {:induction false} TextOfConcat(a: seq<ContentItem>, b: seq<ContentItem>)
    ensures TextOf(a + b) == TextOf(a) + TextOf(b)
  {
    if b == [] {
      assert a + b == a;
    } else {
      var init, last := b[..|b| - 1], b[|b| - 1];
      assert b == init + [last];
      assert a + b == (a + init) + [last];
      calc {
        TextOf(a + b);
        { TextOfSnoc(a + init, last); }
        TextOf(a + init) + Contribution(last);
        { TextOfConcat(a, init); }
        TextOf(a) + TextOf(init) + Contribution(last);
      }
    }
  }

  /** Blocks that are not of type `"text"` contribute nothing: the text is that of the
      text blocks alone. */
  lemma {:induction false} TextOfIgnoresNonText(content: seq<ContentItem>)
    ensures TextOf(content) == TextOf(Filter(content, IsText))
  {
    if content != [] {
      var init, last := content[..|content| - 1], content[|content| - 1];
      TextOfIgnoresNonText(init);
      var kept := Filter(init, IsText);
      assert content[..|content| - 1] == init;
      if IsText(last) {
        assert Filter(content, IsText) == kept + [last];
        assert (kept + [last])[..|kept|] == kept;
        assert TextOf(kept + [last]) == TextOf(kept) + last.text;
      } else {
        assert Filter(content, IsText) == kept;
      }
    }
  }

  /** A reply without text blocks, in particular an empty one, yields the empty string. */
  lemma {:induction false} TextOfNoText(content: seq<ContentItem>)
    requires forall i :: 0 <= i < |content| ==> !IsText(content[i])
    ensures TextOf(content) == ""
  {
    if content != [] {
      TextOfNoText(content[..|content| - 1]);
    }
  }

  /** The extracted text is as long as all text blocks' texts together. */
  lemma {:induction false} TextOfLength(content: seq<ContentItem>)
    ensures |TextOf(content)| == TextLength(content)
  {
    if content != [] {
      TextOfLength(content[1..]);
      assert content == [content[0]] + content[1..];
      TextOfConcat([content[0]], content[1..]);
      assert [content[0]][..0] == [];
    }
  }

  /** One image entry per image: a base64 PNG source carrying the image's bytes. */
  function ImageEntries(images: seq<Bytes>): seq<Entry>
  {
    seq(|images|, i requires 0 <= i < |images| => ImageEntry(ImageSource("base64", "image/png", images[i])))
  }

  /** The `messages` argument: the image entries followed by the user's prompt.
      Iterating over `None` images raises a `TypeError`, as the comprehension does. */
  function BuildMessages(prompt: string, images: Option<seq<Bytes>>): (r: Result<seq<Entry>, Error>)
    ensures images.None? <==> r.Failure?
    ensures r.Failure? ==> r.error == TypeError(NotIterableMessage)
    ensures r.Success? ==> |r.value| == |images.value| + 1
    ensures r.Success? ==> r.value[|r.value| - 1] == UserEntry("user", prompt)
    ensures r.Success? ==> forall i :: 0 <= i < |images.value| ==>
      r.value[i] == ImageEntry(ImageSource("base64", "image/png", images.value[i]))
  {
    match images
    case None => Failure(TypeError(NotIterableMessage))
    case Some(imgs) => Success(ImageEntries(imgs) + [UserEntry("user", prompt)])
  }

  /** The image bytes carried by `entries`, in order. */
  function ImagesOf(entries: seq<Entry>): seq<Bytes>
  {
    if entries == [] then []
    else (if entries[0].ImageEntry? then [entries[0].source.data] else []) + ImagesOf(entries[1..])
  }

  /** The prompts carried by the user entries of `entries`, in order. */
  function PromptsOf(entries: seq<Entry>): seq<string>
  {
    if entries == [] then []
    else (if entries[0].UserEntry? then [entries[0].content] else []) + PromptsOf(entries[1..])
  }

  lemma {:induction false} ImagesOfConcat(a: seq<Entry>, b: seq<Entry>)
    ensures ImagesOf(a + b) == ImagesOf(a) + ImagesOf(b)
    ensures PromptsOf(a + b) == PromptsOf(a) + PromptsOf(b)
  {
    if a != [] {
      assert (a + b)[1..] == a[1..] + b;
      ImagesOfConcat(a[1..], b);
    } else {
      assert a + b == b;
    }
  }

  lemma {:induction false} ImageEntriesRoundTrip(images: seq<Bytes>)
    ensures ImagesOf(ImageEntries(images)) == images
    ensures PromptsOf(ImageEntries(images)) == []
  {
    if images != [] {
      assert ImageEntries(images)[1..] == ImageEntries(images[1..]);
      ImageEntriesRoundTrip(images[1..]);
    }
  }

  /** The built message list carries exactly the given images, in order, and exactly
      one prompt, the given one. */
  lemma BuildMessagesRoundTrip(prompt: string, images: seq<Bytes>)
    ensures BuildMessages(prompt, Some(images)).Success?
    ensures ImagesOf(BuildMessages(prompt, Some(images)).value) == images
    ensures PromptsOf(BuildMessages(prompt, Some(images)).value) == [prompt]
  {
    ImageEntriesRoundTrip(images);
    ImagesOfConcat(ImageEntries(images), [UserEntry("user", prompt)]);
    assert ImagesOf([UserEntry("user", prompt)]) == [];
  }

  /** Builds the request, hands it to `create` (the SDK call, which may raise) and
      extracts the reply's text. Every exception propagates to the caller. As in the
      source, `images` defaults to the empty list and `maxTokens` to `DefaultMaxTokens`. */
  method FetchAnthropicAiResponse(create: Request -> Result<Message, Error>, prompt: string,
                                  images: Option<seq<Bytes>> := Some([]),
                                  maxTokens: Option<int> := Some(DefaultMaxTokens))
    returns (r: Result<string, Error>)
    ensures images.None? ==> r == Failure(TypeError(NotIterableMessage))
    ensures images.Some? ==>
      var reply := create(Request(maxTokens, BuildMessages(prompt, images).value));
      r == if reply.Failure? then Failure(reply.error) else Success(TextOf(reply.value.content))
  {
    var messages := BuildMessages(prompt, images);
    if messages.Failure? {
      return Failure(messages.error);
    }
    var reply := create(Request(maxTokens, messages.value));
    if reply.Failure? {
      return Failure(reply.error);
    }
    var text := ExtractMessage(reply.value);
    return Success(text);
  }
}
