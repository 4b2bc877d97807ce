/** `telegram_notify`: the text sent for one listing, and the send itself
    with the bot library and the Telegram API as parameters. */
module Telegram {

  import opened Text
  import opened Scraper

  /** The first line: the title cut to 80 characters, with `...` when it
      was longer. */
  function TitleLine(l: Listing): (line: string)
    ensures |line| <= 83
    ensures |l.title| <= 80 ==> line == l.title
    ensures |l.title| > 80 ==> |line| == 83 && line[..80] == l.title[..80] && line[80..] == "..."
  {
    Ellipsize(l.title, 80)
  }

  /** Python's `s or default` on a text. */
  function OrDefault(s: string, default: string): (r: string)
    ensures s != [] ==> r == s
    ensures s == [] ==> r == default
  {
    if s != [] then s else default
  }

  /** The second line: price and location, each replaced by a placeholder
      when empty. */
  function InfoLine(l: Listing): string {
    OrDefault(l.price, "No price") + " | " + OrDefault(l.location, "No location")
  }

  /** The second line starts with the price, or its placeholder, and
      ` | `, and ends with the location, or its placeholder. */
  lemma InfoLineShape(l: Listing)
    ensures var r, price := InfoLine(l), if l.price != [] then l.price else "No price";
      |price| + 3 <= |r| && r[..|price|] == price && r[|price|..|price| + 3] == " | "
    ensures var r, loc := InfoLine(l), if l.location != [] then l.location else "No location";
      |loc| + 3 <= |r| && r[|r| - |loc|..] == loc
  {
    var p, q := OrDefault(l.price, "No price"), OrDefault(l.location, "No location");
    var r := p + " | " + q;
    assert r[..|p|] == p && r[|p|..|p| + 3] == " | " && r[|r| - |q|..] == q;
  }

  /** The lines of the message: title, price and location, URL, and, when
      the listing has a description, a blank line and the description cut
      to 200 characters. */
  function MessageLines(l: Listing): (lines: seq<string>)
    ensures |lines| == if l.description == [] then 3 else 5
    ensures lines[0] == TitleLine(l) && lines[1] == InfoLine(l) && lines[2] == l.url
    ensures l.description != [] ==> lines[3] == [] && lines[4] == Ellipsize(l.description, 200)
  {
    [TitleLine(l), InfoLine(l), l.url]
      + (if l.description == [] then [] else ["", Ellipsize(l.description, 200)])
  }

  /** The body built in `_send_async`. */
  function MessageBody(l: Listing): (body: string)
    ensures TitleLine(l) + "\n" + InfoLine(l) + "\n" + l.url <= body
    ensures l.description == [] <==> |body| == |TitleLine(l) + "\n" + InfoLine(l) + "\n" + l.url|
    ensures l.description != [] ==>
      body[|TitleLine(l) + "\n" + InfoLine(l) + "\n" + l.url|..] == "\n\n" + Ellipsize(l.description, 200)
  {
    var head := TitleLine(l) + "\n" + InfoLine(l) + "\n" + l.url;
    if l.description == [] then head
    else head + "\n\n" + Ellipsize(l.description, 200)
  }

  /** The body is its lines joined with newlines. */
  lemma MessageBodyIsLines(l: Listing)
    ensures MessageBody(l) == Join(MessageLines(l), "\n")
  {
    var lines := MessageLines(l);
    var t, i, u := TitleLine(l), InfoLine(l), l.url;
    if l.description == [] {
      assert lines == [t] + [i, u];
      JoinCons(i, [u], "\n");
      JoinCons(t, [i, u], "\n");
    } else {
      var d := Ellipsize(l.description, 200);
      assert lines == [t] + ([i] + ([u] + ([""] + [d])));
      JoinCons("", [d], "\n");
      JoinCons(u, [""] + [d], "\n");
      JoinCons(i, [u] + ([""] + [d]), "\n");
      JoinCons(t, [i] + ([u] + ([""] + [d])), "\n");
    }
  }

  /** The second line has a newline only when the price or the location does. */
  lemma InfoLineNoNewline(l: Listing)
    requires '\n' !in l.price && '\n' !in l.location
    ensures '\n' !in InfoLine(l)
  {
    var p, q := OrDefault(l.price, "No price"), OrDefault(l.location, "No location");
    assert '\n' !in p by {
      if l.price == [] { assert forall k :: 0 <= k < |p| ==> p[k] != '\n'; }
    }
    assert '\n' !in q by {
      if l.location == [] { assert forall k :: 0 <= k < |q| ==> q[k] != '\n'; }
    }
    var r := p + " | " + q;
    assert forall k :: 0 <= k < |r| ==> r[k] != '\n' by {
      forall k | 0 <= k < |r| ensures r[k] != '\n' {
        if k < |p| { assert r[k] == p[k]; }
        else if k >= |p| + 3 { assert r[k] == q[k - |p| - 3]; }
      }
    }
    assert InfoLine(l) == r;
  }

  /** Cutting a text with an ellipsis adds no newline. */
  lemma EllipsizeNoNewline(s: string, n: nat)
    requires '\n' !in s
    ensures '\n' !in Ellipsize(s, n)
  {
    var r := Ellipsize(s, n);
    if |s| > n {
      assert r == s[..n] + "...";
    }
  }

  /** When no field of the listing contains a newline, the recipient reads
      the lines back by splitting the message on newlines. */
  lemma MessageSplitsIntoLines(l: Listing)
    requires '\n' !in l.title && '\n' !in l.price && '\n' !in l.location
    requires '\n' !in l.url && '\n' !in l.description
    ensures SplitOnChar(MessageBody(l), '\n') == MessageLines(l)
  {
    var lines := MessageLines(l);
    assert forall k :: 0 <= k < |lines| ==> '\n' !in lines[k] by {
      EllipsizeNoNewline(l.title, 80);
      EllipsizeNoNewline(l.description, 200);
      InfoLineNoNewline(l);
    }
    assert MessageBody(l) == Join(lines, "\n") by {
      MessageBodyIsLines(l);
    }
    SplitJoinOnChar(lines, '\n');
  }

  /** `send_telegram`: `True` exactly when the bot library is available and
      sending `MessageBody(l)` to `chatId` with `token` raised nothing; every
      failure gives `False`. `deliver` stands for the Telegram API call. */
  function SendTelegram(token: string, chatId: string, l: Listing, botInstalled: bool,
                        deliver: (string, string, string) -> bool): (sent: bool)
    ensures sent <==> botInstalled && deliver(token, chatId, MessageBody(l))
  {
    if !botInstalled then false else deliver(token, chatId, MessageBody(l))
  }
}
