/**
 * The request handlers of src/main.rs, without their HTTP framing: `submit` and
 * `submit_raw` draw identifiers until one is free, create the paste and answer with
 * its location; `show_paste` splits the path segment into key and extension, reads
 * the paste and wraps each line of the rendered code in `<code>` tags.
 *
 * The random source is a sequence of draws (twelve indices each); syntax
 * highlighting and HTML escaping are parameters whose results are taken as given.
 */
module Handlers {
  import opened Wrappers
  import opened Utf8
  import opened Ids
  import opened Repository

  // ---------------------------------------------------------------------------
  // choosing an identifier

  /** Every draw is a valid one for `generate_id`. */
  predicate AllDraws(draws: seq<seq<nat>>) {
    forall k :: 0 <= k < |draws| ==> IsDraw(draws[k])
  }

  /** Some draw from position `n` on yields an identifier not in `taken`. */
  predicate FreshFrom(taken: map<Id, Bytes>, draws: seq<seq<nat>>, n: nat)
    requires AllDraws(draws)
  {
    exists k :: n <= k < |draws| && GenerateId(draws[k]) !in taken
  }

  /**
   * The identifier the retry loop settles on: the first draw from position `n` on
   * whose identifier is not taken. It is not taken, it has the identifier shape, it
   * comes from some draw `k`, and every draw before `k` gave a taken identifier.
   */
  function FirstFresh(taken: map<Id, Bytes>, draws: seq<seq<nat>>, n: nat): (id: Id)
    requires AllDraws(draws) && FreshFrom(taken, draws, n)
    ensures id !in taken && IsId(id)
    ensures exists k ::
              && n <= k < |draws| && id == GenerateId(draws[k])
              && (forall j :: n <= j < k ==> GenerateId(draws[j]) in taken)
    decreases |draws| - n
  {
    var candidate := GenerateId(draws[n]);
    if candidate !in taken then candidate
    else
      assert FreshFrom(taken, draws, n + 1) by {
        var k :| n <= k < |draws| && GenerateId(draws[k]) !in taken;
        assert k != n;
      }
      FirstFresh(taken, draws, n + 1)
  }

  /** A draw whose identifier is taken is skipped: the search goes on from the next one. */
  lemma SkipTaken(taken: map<Id, Bytes>, draws: seq<seq<nat>>, n: nat)
    requires AllDraws(draws) && FreshFrom(taken, draws, n)
    requires n < |draws| && GenerateId(draws[n]) in taken
    ensures n + 1 < |draws| && FreshFrom(taken, draws, n + 1)
    ensures FirstFresh(taken, draws, n) == FirstFresh(taken, draws, n + 1)
  {
    var k :| n <= k < |draws| && GenerateId(draws[k]) !in taken;
    assert k != n;
  }

  /**
   * The retry loop of `submit` and `submit_raw`: draw an identifier, and draw again
   * while the repository already holds it, taking the draws from `draws` in order. It
   * terminates because some draw gives a free identifier; it returns the first such,
   * and changes nothing.
   */
  method ChooseId(repo: MemoryRepository, draws: seq<seq<nat>>) returns (id: Id)
    requires AllDraws(draws) && FreshFrom(repo.pastes, draws, 0)
    ensures id == FirstFresh(repo.pastes, draws, 0)
    ensures id !in repo.pastes && IsId(id)
  {
    ghost var pastes := repo.pastes;
    var n := 0;
    id := GenerateId(draws[n]);
    var taken := repo.Exists(id);
    while taken
      invariant 0 <= n < |draws| && id == GenerateId(draws[n])
      invariant taken <==> id in pastes
      invariant FreshFrom(pastes, draws, n)
      invariant FirstFresh(pastes, draws, n) == FirstFresh(pastes, draws, 0)
      decreases |draws| - n
    {
      SkipTaken(pastes, draws, n);
      n := n + 1;
      id := GenerateId(draws[n]);
      taken := repo.Exists(id);
    }
    assert FirstFresh(pastes, draws, n) == id;
  }

  // ---------------------------------------------------------------------------
  // submit and submit_raw

  /** How a submission ends: with the new paste's location, or aborted by the failed write. */
  datatype Outcome = Created(location: string) | Aborted(error: IoError)

  /** The location `submit` redirects to. */
  function RelativeLocation(id: Id): (uri: string)
    ensures |uri| == |id| + 1 && uri[0] == '/' && uri[1..] == id
  {
    "/" + id
  }

  /**
   * The location `submit_raw` answers with: `https://<host>/<id>` when the request
   * carries a Host header whose bytes are UTF-8, `/<id>` otherwise.
   */
  function Location(host: Option<Bytes>, id: Id): (uri: string)
    ensures |uri| > |id| && uri[|uri| - |id| - 1..] == RelativeLocation(id)
    ensures host.Some? && Decode(host.value).Some? ==>
      uri == "https://" + Decode(host.value).value + RelativeLocation(id)
    ensures !(host.Some? && Decode(host.value).Some?) ==> uri == RelativeLocation(id)
  {
    match host
    case Some(h) =>
      (match Decode(h)
       case Some(text) => "https://" + text + RelativeLocation(id)
       case None => RelativeLocation(id))
    case None => RelativeLocation(id)
  }

  /**
   * The host written into an absolute location is the header itself: its text,
   * encoded as UTF-8 again, gives back the header's bytes.
   */
  lemma LocationHost(host: Bytes, id: Id)
    requires Decode(host).Some?
    ensures var uri := Location(Some(host), id);
      uri[..8] == "https://" && Encode(uri[8..|uri| - |id| - 1]) == host
  {
    var text := Decode(host).value;
    var uri := Location(Some(host), id);
    assert uri[8..|uri| - |id| - 1] == text;
    EncodeDecode(host);
  }

  /**
   * `submit`: choose a free identifier, create the paste, redirect to `/<id>`. The
   * source stops with a panic when the write fails; here that is `Aborted` and the
   * repository keeps its pastes.
   */
  method Submit(repo: MemoryRepository, draws: seq<seq<nat>>, val: Bytes, fault: Option<IoError>)
    returns (id: Id, r: Outcome)
    requires AllDraws(draws) && FreshFrom(repo.pastes, draws, 0)
    modifies repo
    ensures id == FirstFresh(old(repo.pastes), draws, 0) && id !in old(repo.pastes)
    ensures fault.None? ==> r == Created(RelativeLocation(id)) && repo.pastes == old(repo.pastes)[id := val]
    ensures fault.Some? ==> r == Aborted(fault.value) && repo.pastes == old(repo.pastes)
  {
    id := ChooseId(repo, draws);
    var uri := RelativeLocation(id);
    var created := repo.Create(id, val, fault);
    if created.Failure? {
      r := Aborted(created.error);
    } else {
      r := Created(uri);
    }
  }

  /** `submit_raw`: as `submit`, answering with `Location(host, id)`. */
  method SubmitRaw(repo: MemoryRepository, draws: seq<seq<nat>>, data: Bytes, host: Option<Bytes>,
                   fault: Option<IoError>)
    returns (id: Id, r: Outcome)
    requires AllDraws(draws) && FreshFrom(repo.pastes, draws, 0)
    modifies repo
    ensures id == FirstFresh(old(repo.pastes), draws, 0) && id !in old(repo.pastes)
    ensures fault.None? ==> r == Created(Location(host, id)) && repo.pastes == old(repo.pastes)[id := data]
    ensures fault.Some? ==> r == Aborted(fault.value) && repo.pastes == old(repo.pastes)
  {
    id := ChooseId(repo, draws);
    var uri := Location(host, id);
    var created := repo.Create(id, data, fault);
    if created.Failure? {
      r := Aborted(created.error);
    } else {
      r := Created(uri);
    }
  }

  /**
   * A successful submission adds exactly one paste, at a fresh identifier, with the
   * submitted bytes; every paste that was there keeps its content.
   */
  lemma SubmitAddsOne(pastes: map<Id, Bytes>, id: Id, val: Bytes)
    requires id !in pastes
    ensures var after := pastes[id := val];
      after.Keys == pastes.Keys + {id} && |after| == |pastes| + 1 && after[id] == val &&
      forall other :: other in pastes ==> other in after && after[other] == pastes[other]
  {
    var after := pastes[id := val];
    assert after.Keys == pastes.Keys + {id};
    assert |after.Keys| == |pastes.Keys| + 1;
  }

  // ---------------------------------------------------------------------------
  // show_paste: the path segment

  /** The position of the first `c` in `s`, if there is one. */
  function IndexOf(s: string, c: char): (r: Option<nat>)
    ensures r.Some? ==> r.value < |s| && s[r.value] == c && c !in s[..r.value]
    ensures r.None? <==> c !in s
  {
    if s == [] then None
    else if s[0] == c then Some(0)
    else
      match IndexOf(s[1..], c)
      case Some(i) =>
        assert s[..i + 1] == [s[0]] + s[1..][..i];
        Some(i + 1)
      case None => None
  }

  /**
   * `key.splitn(2, '.')`: the key is the segment up to its first `.`, the extension
   * everything after that `.`; with no `.` the key is the whole segment.
   */
  function SplitKey(segment: string): (r: (string, Option<string>))
    ensures '.' !in r.0
    ensures r.1.Some? <==> '.' in segment
    ensures r.1.Some? ==> r.0 + "." + r.1.value == segment
    ensures r.1.None? ==> r.0 == segment
  {
    match IndexOf(segment, '.')
    case Some(i) =>
      assert segment[..i] + "." + segment[i + 1..] == segment;
      (segment[..i], Some(segment[i + 1..]))
    case None => (segment, None)
  }

  /** A key with no `.`, joined to any extension, splits back into that key and extension. */
  lemma {:induction false} SplitJoin(key: string, ext: string)
    requires '.' !in key
    ensures SplitKey(key + "." + ext) == (key, Some(ext))
  {
    var segment := key + "." + ext;
    var (k, e) := SplitKey(segment);
    assert k + "." + e.value == segment;
    assert segment[..|key|] == key && segment[|key|] == '.';
    assert segment[..|k|] == k && segment[|k|] == '.';
    forall i | 0 <= i < |key| ensures segment[i] != '.' {
      assert segment[i] == key[i];
    }
    forall i | 0 <= i < |k| ensures segment[i] != '.' {
      assert segment[i] == k[i];
    }
    assert |k| == |key|;
    assert e.value == segment[|k| + 1..] == ext;
  }

  // ---------------------------------------------------------------------------
  // show_paste: line wrapping

  /** `str::replace` with a character pattern: every `c` in `s` becomes `rep`. */
  function Replace(s: string, c: char, rep: string): (r: string)
    ensures forall x :: x in r ==> (x in s && x != c) || x in rep
  {
    if s == [] then [] else (if s[0] == c then rep else [s[0]]) + Replace(s[1..], c, rep)
  }

  /** When the replacement does not hold `c`, no `c` is left. */
  lemma {:induction false} ReplaceRemoves(s: string, c: char, rep: string)
    requires c !in rep
    ensures c !in Replace(s, c, rep)
  {
    if s != [] {
      ReplaceRemoves(s[1..], c, rep);
    }
  }

  /** Text without `c` is left as it is. */
  lemma {:induction false} ReplacePlain(s: string, c: char, rep: string)
    requires c !in s
    ensures Replace(s, c, rep) == s
  {
    if s != [] {
      ReplacePlain(s[1..], c, rep);
      assert [s[0]] + s[1..] == s;
    }
  }

  /** The replacement works character by character, so it distributes over joining. */
  lemma {:induction false} ReplaceAppend(a: string, b: string, c: char, rep: string)
    ensures Replace(a + b, c, rep) == Replace(a, c, rep) + Replace(b, c, rep)
  {
    if a == [] {
      assert a + b == b;
    } else {
      assert (a + b)[0] == a[0] && (a + b)[1..] == a[1..] + b;
      ReplaceAppend(a[1..], b, c, rep);
    }
  }

  /** A `c` between two pieces of text becomes `rep`; the pieces are replaced on their own. */
  lemma ReplaceAt(a: string, b: string, c: char, rep: string)
    ensures Replace(a + [c] + b, c, rep) == Replace(a, c, rep) + rep + Replace(b, c, rep)
  {
    ReplaceAppend(a + [c], b, c, rep);
    ReplaceAppend(a, [c], c, rep);
    assert Replace([c], c, rep) == rep + Replace([], c, rep);
  }

  /** The wrapping of src/main.rs:195-198: each line of `code` inside its own `<code>` element. */
  function WrapLines(code: string): (html: string)
    ensures |html| >= 13 && html[..6] == "<code>" && html[|html| - 7..] == "</code>" && '\n' !in html
  {
    var r := Replace(code, '\n', "</code><code>");
    ReplaceRemoves(code, '\n', "</code><code>");
    var html := "<code>" + r + "</code>";
    assert html[|html| - 7..] == "</code>";
    assert forall i :: 0 <= i < |html| ==> html[i] == '\n' ==> 6 <= i < 6 + |r| && r[i - 6] == '\n';
    html
  }

  /** The number of newlines in `s`. */
  function Lines(s: string): nat {
    if s == [] then 0 else (if s[0] == '\n' then 1 else 0) + Lines(s[1..])
  }

  /** The number of places in `s` where an opening tag `<code>` starts. */
  function OpenTags(s: string): nat {
    if |s| < 6 then 0 else (if s[..6] == "<code>" then 1 else 0) + OpenTags(s[1..])
  }

  /** Characters other than `<` cannot start a tag. */
  lemma {:induction false} OpenTagsSkip(a: string, rest: string)
    requires '<' !in a
    ensures OpenTags(a + rest) == OpenTags(rest)
  {
    if a != [] {
      var s := a + rest;
      assert s[0] == a[0] != '<';
      assert |s| >= 6 ==> s[..6] != "<code>" by {
        if |s| >= 6 {
          assert s[..6][0] == s[0];
        }
      }
      assert s[1..] == a[1..] + rest;
      OpenTagsSkip(a[1..], rest);
    } else {
      assert a + rest == rest;
    }
  }

  /** An opening tag at the front counts once, and nothing inside it starts another. */
  lemma OpenTagFront(rest: string)
    ensures OpenTags("<code>" + rest) == 1 + OpenTags(rest)
  {
    var t := "<code>" + rest;
    assert t[..6] == "<code>";
    assert t[1..] == "code>" + rest;
    OpenTagsSkip("code>", rest);
  }

  /** A closing tag at the front starts no opening tag. */
  lemma CloseTagFront(rest: string)
    ensures OpenTags("</code>" + rest) == OpenTags(rest)
  {
    var t := "</code>" + rest;
    assert t[1] == '/';
    assert t[1..] == "/code>" + rest;
    OpenTagsSkip("/code>", rest);
  }

  /** A closing-then-opening pair holds one opening tag. */
  lemma CloseAndOpenTags(rest: string)
    ensures OpenTags("</code><code>" + rest) == 1 + OpenTags(rest)
  {
    assert "</code><code>" + rest == "</code>" + ("<code>" + rest);
    CloseTagFront("<code>" + rest);
    OpenTagFront(rest);
  }

  /** Without `<` in the input, every newline turns into exactly one opening tag. */
  lemma {:induction false} CloseAndOpenCount(s: string, rest: string)
    requires '<' !in s
    ensures OpenTags(Replace(s, '\n', "</code><code>") + rest) == Lines(s) + OpenTags(rest)
  {
    var r := Replace(s, '\n', "</code><code>");
    if s != [] {
      CloseAndOpenCount(s[1..], rest);
      var tail := Replace(s[1..], '\n', "</code><code>") + rest;
      if s[0] == '\n' {
        assert r + rest == "</code><code>" + tail;
        CloseAndOpenTags(tail);
      } else {
        assert r + rest == [s[0]] + tail;
        OpenTagsSkip([s[0]], tail);
      }
    } else {
      assert r + rest == rest;
    }
  }

  /**
   * For code without `<` (HTML-escaped text has none), the wrapped HTML has one
   * opening `<code>` per line: the number of newlines plus one.
   */
  lemma WrapLinesCount(code: string)
    requires '<' !in code
    ensures OpenTags(WrapLines(code)) == Lines(code) + 1
  {
    var r := Replace(code, '\n', "</code><code>");
    assert WrapLines(code) == "<code>" + r + "</code>" == "<code>" + (r + "</code>");
    OpenTagFront(r + "</code>");
    CloseAndOpenCount(code, "</code>");
    CloseTagFront([]);
    assert "</code>" + [] == "</code>";
  }

  /** The lines `lines` joined with newlines, as the text of a paste holds them. */
  function JoinLines(lines: seq<string>): string
    requires lines != []
  {
    if |lines| == 1 then lines[0] else lines[0] + "\n" + JoinLines(lines[1..])
  }

  /** Each line inside its own `<code>` element, one after the other. */
  function CodeElements(lines: seq<string>): string {
    if lines == [] then [] else "<code>" + lines[0] + "</code>" + CodeElements(lines[1..])
  }

  /** A first line without newlines ends up, unchanged, in the first `<code>` element. */
  lemma WrapFirstLine(line: string, rest: string)
    requires '\n' !in line
    ensures WrapLines(line + "\n" + rest) == "<code>" + line + "</code>" + WrapLines(rest)
  {
    var open, close := "<code>", "</code>";
    ReplacePlain(line, '\n', "</code><code>");
    ReplaceAt(line, rest, '\n', "</code><code>");
    assert "</code><code>" == close + open;
    Regroup(open, line, close, Replace(rest, '\n', "</code><code>"));
  }

  /** Moving the brackets of a string concatenation, over abstract pieces. */
  lemma Regroup(open: string, line: string, close: string, r: string)
    ensures open + (line + (close + open) + r) + close == (open + line + close) + (open + r + close)
  {
  }

  /**
   * The wrapping keeps the text: for code made of lines without newlines, the HTML
   * is each line, unchanged, inside its own `<code>` element.
   */
  lemma {:induction false} WrapLinesElements(lines: seq<string>)
    requires lines != []
    requires forall i :: 0 <= i < |lines| ==> '\n' !in lines[i]
    ensures WrapLines(JoinLines(lines)) == CodeElements(lines)
  {
    var first := "<code>" + lines[0] + "</code>";
    if |lines| == 1 {
      ReplacePlain(lines[0], '\n', "</code><code>");
      assert CodeElements(lines) == first + CodeElements([]);
      assert first + [] == first;
    } else {
      WrapLinesElements(lines[1..]);
      WrapFirstLine(lines[0], JoinLines(lines[1..]));
    }
  }

  // ---------------------------------------------------------------------------
  // show_paste

  /** What `show_paste` answers, before the page template is applied. */
  datatype Page =
    | NotFound
    | NotUtf8
    | Plain(body: Bytes)
    | Html(code: string)

  /**
   * `show_paste`: the key picks the paste (absent: `NotFound`); a plain-text request
   * gets the bytes as they are; otherwise the bytes must be UTF-8 (else `NotUtf8`),
   * are highlighted for the extension (no highlighter for it: `NotFound`) or
   * HTML-escaped when there is none, and the lines are wrapped.
   */
  method ShowPaste(repo: MemoryRepository, segment: string, plaintext: bool,
                   highlight: (string, string) -> Option<string>, escape: string -> string)
    returns (page: Page)
    ensures SplitKey(segment).0 !in repo.pastes ==> page == NotFound
    ensures SplitKey(segment).0 in repo.pastes ==>
      var entry := repo.pastes[SplitKey(segment).0];
      var ext := SplitKey(segment).1;
      page == (
        if plaintext then Plain(entry)
        else match Decode(entry)
          case None => NotUtf8
          case Some(data) =>
            if ext.None? then Html(WrapLines(escape(data)))
            else match highlight(data, ext.value)
              case None => NotFound
              case Some(html) => Html(WrapLines(html)))
  {
    var (key, ext) := SplitKey(segment);
    var entry := repo.Read(key);
    if entry.None? {
      return NotFound;
    }
    if plaintext {
      return Plain(entry.value);
    }
    var data := Decode(entry.value);
    if data.None? {
      return NotUtf8;
    }
    var code;
    if ext.Some? {
      var html := highlight(data.value, ext.value);
      if html.None? {
        return NotFound;
      }
      code := html.value;
    } else {
      code := escape(data.value);
    }
    page := Html(WrapLines(code));
  }
}
