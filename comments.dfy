/**
 * The annotation records held in the global `comments` list, their persisted
 * five-field shape, the records built by `addComment` and `analyzeWithAI`,
 * and the per-page selection used when a page is rendered.
 */
module Comments {
  import opened Wrappers
  import opened Geometry

  /** Identity of a DOM element (a highlight `div` or a page wrapper). */
  type Handle = nat

  /**
   * An in-memory comment. `highlight` and `pageWrapper` are transient: they
   * refer to elements of the current page view and are never persisted.
   */
  datatype Comment = Comment(
    user: string,
    text: string,
    pageNum: int,
    highlightPos: Option<Rect>,
    timestamp: string,
    highlight: Option<Handle>,
    pageWrapper: Option<Handle>)

  /** The persisted shape of a comment, as written to both storage tiers. */
  datatype StoredComment = StoredComment(
    user: string,
    text: string,
    pageNum: int,
    highlightPos: Option<Rect>,
    timestamp: string)

  /** The object literal built by `saveComments` for one comment. */
  function Project(c: Comment): StoredComment {
    StoredComment(c.user, c.text, c.pageNum, c.highlightPos, c.timestamp)
  }

  /** A parsed record after `c.highlight = null`; it has no page wrapper. */
  function Hydrate(s: StoredComment): Comment {
    Comment(s.user, s.text, s.pageNum, s.highlightPos, s.timestamp, None, None)
  }

  /** The comment with its transient references dropped. */
  function Detached(c: Comment): Comment {
    c.(highlight := None, pageWrapper := None)
  }

  /** `comments.map(c => ({user, text, pageNum, highlightPos, timestamp}))` */
  function Serialize(cs: seq<Comment>): (r: seq<StoredComment>)
    ensures |r| == |cs|
    ensures forall i :: 0 <= i < |cs| ==>
      r[i].user == cs[i].user && r[i].text == cs[i].text && r[i].pageNum == cs[i].pageNum &&
      r[i].highlightPos == cs[i].highlightPos && r[i].timestamp == cs[i].timestamp
  {
    seq(|cs|, i requires 0 <= i < |cs| => Project(cs[i]))
  }

  /** `saved.map(c => { c.highlight = null; return c; })` */
  function Deserialize(ss: seq<StoredComment>): (r: seq<Comment>)
    ensures |r| == |ss|
    ensures forall i :: 0 <= i < |ss| ==>
      r[i].highlight == None && r[i].pageWrapper == None && Project(r[i]) == ss[i]
  {
    seq(|ss|, i requires 0 <= i < |ss| => Hydrate(ss[i]))
  }

  /** Reading back what was written gives every persisted field unchanged. */
  lemma SerializeRoundTrip(ss: seq<StoredComment>)
    ensures Serialize(Deserialize(ss)) == ss
  {
  }

  /** Writing then reading back restores every comment except its transient references. */
  lemma DeserializeRestores(cs: seq<Comment>)
    ensures |Deserialize(Serialize(cs))| == |cs|
    ensures forall i :: 0 <= i < |cs| ==> Deserialize(Serialize(cs))[i] == Detached(cs[i])
  {
  }

  /** Projecting an already projected list changes nothing. */
  lemma SerializeIdempotent(cs: seq<Comment>)
    ensures Serialize(Deserialize(Serialize(cs))) == Serialize(cs)
  {
    SerializeRoundTrip(Serialize(cs));
  }

  /** Placeholders substituted for empty input. */
  const ANONYMOUS: string := "Anonymous"
  const NO_TEXT: string := "(No text)"
  const AI_USER: string := "AI Analysis"
  const NO_RESPONSE: string := "(No response)"

  /** JavaScript's `value || fallback` on a string: the empty string is falsy. */
  function OrElse(value: string, fallback: string): (r: string)
    ensures value != "" ==> r == value
    ensures value == "" ==> r == fallback
  {
    if value == "" then fallback else value
  }

  /** The comment object `addComment` pushes. */
  function UserComment(userName: string, commentText: string, pageNum: int, pos: Rect,
                       timestamp: string, highlight: Handle, pageWrapper: Handle): (c: Comment)
    ensures c.user != "" && c.text != ""
    ensures userName != "" ==> c.user == userName
    ensures userName == "" ==> c.user == ANONYMOUS
    ensures commentText != "" ==> c.text == commentText
    ensures commentText == "" ==> c.text == NO_TEXT
    ensures c.pageNum == pageNum && c.highlightPos == Some(pos) && c.timestamp == timestamp
    ensures c.highlight == Some(highlight) && c.pageWrapper == Some(pageWrapper)
  {
    Comment(OrElse(userName, ANONYMOUS), OrElse(commentText, NO_TEXT), pageNum, Some(pos),
            timestamp, Some(highlight), Some(pageWrapper))
  }

  /**
   * The comment object `analyzeWithAI` pushes; `result` is `data.result`,
   * None when the response carries none.
   */
  function AiNote(result: Option<string>, pageNum: int, timestamp: string, pageWrapper: Handle): (c: Comment)
    ensures c.user == AI_USER && c.text != ""
    ensures result.Some? && result.value != "" ==> c.text == result.value
    ensures result.None? || result.value == "" ==> c.text == NO_RESPONSE
    ensures c.pageNum == pageNum && c.highlightPos == None && c.timestamp == timestamp
    ensures c.highlight == None && c.pageWrapper == Some(pageWrapper)
  {
    var text := if result.Some? then result.value else "";
    Comment(AI_USER, OrElse(text, NO_RESPONSE), pageNum, None, timestamp, None, Some(pageWrapper))
  }

  /** `comments.filter(c => c.pageNum === pageNum)` */
  function OnPage(cs: seq<Comment>, pageNum: int): (r: seq<Comment>)
    ensures |r| <= |cs|
    ensures forall c :: c in r <==> c in cs && c.pageNum == pageNum
  {
    if cs == [] then []
    else (if cs[0].pageNum == pageNum then [cs[0]] else []) + OnPage(cs[1..], pageNum)
  }

  /** The page filter keeps list order: filtering a concatenation filters each part. */
  lemma {:induction false} OnPageAppend(a: seq<Comment>, b: seq<Comment>, pageNum: int)
    ensures OnPage(a + b, pageNum) == OnPage(a, pageNum) + OnPage(b, pageNum)
  {
    if a != [] {
      assert (a + b)[0] == a[0];
      assert (a + b)[1..] == a[1..] + b;
      OnPageAppend(a[1..], b, pageNum);
    } else {
      assert a + b == b;
    }
  }

  /**
   * Why drawing a page's highlights stopped: the position in the page's list
   * of the comment whose `highlightPos` is null, that comment, and the
   * rectangles already drawn for the comments before it.
   */
  datatype RenderFault = NullHighlightPos(index: nat, comment: Comment, drawn: seq<Rect>)

  /**
   * The highlight rectangles the page-render callback draws, as written: it
   * reads `c.highlightPos.left` for every comment on the page, which throws
   * on the first comment whose `highlightPos` is null.
   */
  function PageHighlightsAsWritten(cs: seq<Comment>, pageNum: int): (r: Result<seq<Rect>, RenderFault>)
    ensures r.Failure? ==>
      r.error.comment in cs && r.error.comment.pageNum == pageNum && r.error.comment.highlightPos.None?
    ensures r.Failure? ==>
      r.error.index < |OnPage(cs, pageNum)| && OnPage(cs, pageNum)[r.error.index] == r.error.comment
    ensures r.Failure? ==>
      forall j :: 0 <= j < r.error.index ==> OnPage(cs, pageNum)[j].highlightPos.Some?
    ensures r.Failure? ==> |r.error.drawn| == r.error.index
    ensures r.Failure? ==> forall j :: 0 <= j < r.error.index ==>
      OnPage(cs, pageNum)[j].highlightPos == Some(r.error.drawn[j])
    ensures r.Success? ==> forall q :: q in r.value ==>
      exists c :: c in cs && c.pageNum == pageNum && c.highlightPos == Some(q)
  {
    DrawnRectsOnPage(cs, pageNum);
    DrawAll(OnPage(cs, pageNum))
  }

  lemma DrawnRectsOnPage(cs: seq<Comment>, pageNum: int)
    ensures DrawAll(OnPage(cs, pageNum)).Success? ==> forall q :: q in DrawAll(OnPage(cs, pageNum)).value ==>
      exists c :: c in cs && c.pageNum == pageNum && c.highlightPos == Some(q)
  {
    var onPage := OnPage(cs, pageNum);
    var r := DrawAll(onPage);
    if r.Success? {
      forall q | q in r.value
        ensures exists c :: c in cs && c.pageNum == pageNum && c.highlightPos == Some(q)
      {
        var i :| 0 <= i < |r.value| && r.value[i] == q;
        assert onPage[i] in onPage;
      }
    }
  }

  /**
   * Draws one highlight per comment in order, throwing at the first null
   * rectangle; the fault keeps the rectangles drawn before the throw.
   */
  function DrawAll(cs: seq<Comment>): (r: Result<seq<Rect>, RenderFault>)
    ensures r.Success? ==> |r.value| == |cs|
    ensures r.Success? ==> forall i :: 0 <= i < |cs| ==> cs[i].highlightPos == Some(r.value[i])
    ensures r.Failure? ==> r.error.comment in cs && r.error.comment.highlightPos.None?
    ensures r.Failure? ==> r.error.index < |cs| && cs[r.error.index] == r.error.comment
    ensures r.Failure? ==> forall j :: 0 <= j < r.error.index ==> cs[j].highlightPos.Some?
    ensures r.Failure? ==> |r.error.drawn| == r.error.index
    ensures r.Failure? ==> forall j :: 0 <= j < r.error.index ==> cs[j].highlightPos == Some(r.error.drawn[j])
  {
    if cs == [] then Success([])
    else if cs[0].highlightPos.None? then Failure(NullHighlightPos(0, cs[0], []))
    else match DrawAll(cs[1..])
      case Success(rest) => Success([cs[0].highlightPos.value] + rest)
      case Failure(f) => Failure(NullHighlightPos(f.index + 1, f.comment, [cs[0].highlightPos.value] + f.drawn))
  }

  lemma {:induction false} DrawAllFailsIff(cs: seq<Comment>)
    ensures DrawAll(cs).Failure? <==> exists i :: 0 <= i < |cs| && cs[i].highlightPos.None?
  {
    if cs != [] {
      DrawAllFailsIff(cs[1..]);
      if exists i :: 0 <= i < |cs| && cs[i].highlightPos.None? {
        var i :| 0 <= i < |cs| && cs[i].highlightPos.None?;
        if i > 0 {
          assert cs[1..][i - 1].highlightPos.None?;
        }
      }
    }
  }

  /** Rendering a page fails exactly when some comment on it has no rectangle. */
  lemma PageRenderFailsIff(cs: seq<Comment>, pageNum: int)
    ensures PageHighlightsAsWritten(cs, pageNum).Failure? <==>
            exists c :: c in cs && c.pageNum == pageNum && c.highlightPos.None?
  {
    var onPage := OnPage(cs, pageNum);
    DrawAllFailsIff(onPage);
    if exists c :: c in cs && c.pageNum == pageNum && c.highlightPos.None? {
      var c :| c in cs && c.pageNum == pageNum && c.highlightPos.None?;
      assert c in onPage;
      var i :| 0 <= i < |onPage| && onPage[i] == c;
    }
  }

  /**
   * An AI note, once saved and reloaded, makes the render of its page fail,
   * whatever else the list holds.
   */
  lemma AiNoteBreaksPageRender(cs: seq<Comment>, result: Option<string>, pageNum: int,
                               timestamp: string, pageWrapper: Handle)
    ensures PageHighlightsAsWritten(Deserialize(Serialize(cs + [AiNote(result, pageNum, timestamp, pageWrapper)])), pageNum).Failure?
  {
    var all := cs + [AiNote(result, pageNum, timestamp, pageWrapper)];
    var reloaded := Deserialize(Serialize(all));
    assert reloaded[|cs|] in reloaded;
    PageRenderFailsIff(reloaded, pageNum);
  }

  /** The rectangles of the page's comments, skipping comments that have none. */
  function PageHighlights(cs: seq<Comment>, pageNum: int): (r: seq<Rect>)
    ensures |r| <= |cs|
    ensures forall q :: q in r <==> exists c :: c in cs && c.pageNum == pageNum && c.highlightPos == Some(q)
  {
    if cs == [] then []
    else
      (if cs[0].pageNum == pageNum && cs[0].highlightPos.Some? then [cs[0].highlightPos.value] else [])
      + PageHighlights(cs[1..], pageNum)
  }

  /** The corrected render keeps list order and multiplicity: it distributes over concatenation. */
  lemma {:induction false} PageHighlightsAppend(a: seq<Comment>, b: seq<Comment>, pageNum: int)
    ensures PageHighlights(a + b, pageNum) == PageHighlights(a, pageNum) + PageHighlights(b, pageNum)
  {
    if a != [] {
      assert (a + b)[0] == a[0];
      assert (a + b)[1..] == a[1..] + b;
      PageHighlightsAppend(a[1..], b, pageNum);
    } else {
      assert a + b == b;
    }
  }

  /** Where the written code does not fail, it draws the same rectangles as the corrected one. */
  lemma {:induction false} PageHighlightsAgree(cs: seq<Comment>, pageNum: int)
    requires PageHighlightsAsWritten(cs, pageNum).Success?
    ensures PageHighlightsAsWritten(cs, pageNum).value == PageHighlights(cs, pageNum)
  {
    if cs != [] {
      var rest := OnPage(cs[1..], pageNum);
      var onPage := OnPage(cs, pageNum);
      if cs[0].pageNum == pageNum {
        assert onPage == [cs[0]] + rest;
        assert onPage[0] == cs[0] && onPage[1..] == rest;
      } else {
        assert onPage == rest;
      }
      PageHighlightsAgree(cs[1..], pageNum);
    }
  }
}
