/**
  The ZMQ socket-type registry of the Emacs ZMQ module (src/module.c).

  A socket type is a C integer code; on the Emacs side it is a keyword
  symbol such as `:zmq-pair`. Keywords are interned, so two keywords are `eq`
  exactly when their names are equal: a keyword is modelled by its name.
 */
module ZmqSocketTypes {

  /** An Emacs keyword, identified by its name (leading colon included). */
  type Keyword = string

  // Marker returned for a keyword that names no socket type.
  const ZmqInvalid: int := -1

  // The twelve socket-type codes, in declaration order.
  const ZmqPair: int := 0
  const ZmqPub: int := 1
  const ZmqSub: int := 2
  const ZmqReq: int := 3
  const ZmqRep: int := 4
  const ZmqDealer: int := 5
  const ZmqRouter: int := 6
  const ZmqPull: int := 7
  const ZmqPush: int := 8
  const ZmqXpub: int := 9
  const ZmqXsub: int := 10
  const ZmqStream: int := 11

  /** All socket-type codes, in the order the module declares them. */
  const SocketTypeCodes: seq<int> :=
    [ZmqPair, ZmqPub, ZmqSub, ZmqReq, ZmqRep, ZmqDealer,
     ZmqRouter, ZmqPull, ZmqPush, ZmqXpub, ZmqXsub, ZmqStream]

  /** The keywords the docstring of `spoofax-module/new-socket` lists, in its order. */
  const NewSocketKeywords: seq<Keyword> :=
    [":zmq-pair", ":zmq-pub", ":zmq-sub", ":zmq-req", ":zmq-rep", ":zmq-dealer",
     ":zmq-router", ":zmq-pull", ":zmq-push", ":zmq-xpub", ":zmq-xsub", ":zmq-stream"]

  /** What the default branch of the code-to-keyword switch would return. */
  const UnknownSocketTypeKeyword: Keyword := ":unkown-socket-type"

  /** `socket_type_valid`: the code is in the range ZMQ_PAIR..ZMQ_STREAM. */
  function SocketTypeValid(t: int): (valid: bool)
    ensures valid <==> t in SocketTypeCodes
    ensures valid ==> t != ZmqInvalid
  {
    ZmqPair <= t && t <= ZmqStream
  }

  /**
    `socket_type_to_elisp`: the keyword naming a valid code. The C function
    asserts validity first, which makes its default branch unreachable.
   */
  function SocketTypeToElisp(t: int): (kw: Keyword)
    requires SocketTypeValid(t)
    ensures kw in NewSocketKeywords && kw != UnknownSocketTypeKeyword
    ensures SocketTypeToC(kw) == t
  {
    if t == ZmqPair then ":zmq-pair"
    else if t == ZmqPub then ":zmq-pub"
    else if t == ZmqSub then ":zmq-sub"
    else if t == ZmqReq then ":zmq-req"
    else if t == ZmqRep then ":zmq-rep"
    else if t == ZmqDealer then ":zmq-dealer"
    else if t == ZmqRouter then ":zmq-router"
    else if t == ZmqPull then ":zmq-pull"
    else if t == ZmqPush then ":zmq-push"
    else if t == ZmqXpub then ":zmq-xpub"
    else if t == ZmqXsub then ":zmq-xsub"
    else if t == ZmqStream then ":zmq-stream"
    else assert false; UnknownSocketTypeKeyword
  }

  /**
    `socket_type_to_c`: the code a keyword names, tried in declaration order,
    or ZmqInvalid for any other keyword.
   */
  function SocketTypeToC(kw: Keyword): (t: int)
    ensures t == ZmqInvalid || SocketTypeValid(t)
    ensures t == ZmqInvalid <==> kw !in NewSocketKeywords
    ensures t != ZmqInvalid ==> 0 <= t < |NewSocketKeywords| && NewSocketKeywords[t] == kw
  {
    if kw == ":zmq-pair" then ZmqPair
    else if kw == ":zmq-pub" then ZmqPub
    else if kw == ":zmq-sub" then ZmqSub
    else if kw == ":zmq-req" then ZmqReq
    else if kw == ":zmq-rep" then ZmqRep
    else if kw == ":zmq-dealer" then ZmqDealer
    else if kw == ":zmq-router" then ZmqRouter
    else if kw == ":zmq-pull" then ZmqPull
    else if kw == ":zmq-push" then ZmqPush
    else if kw == ":zmq-xpub" then ZmqXpub
    else if kw == ":zmq-xsub" then ZmqXsub
    else if kw == ":zmq-stream" then ZmqStream
    else ZmqInvalid
  }

  /** No element of `s` occurs twice. */
  predicate NoDuplicates<T(==)>(s: seq<T>) {
    forall i, j :: 0 <= i < j < |s| ==> s[i] != s[j]
  }

  /** A sequence without duplicates has as many distinct elements as it has positions. */
  lemma {:induction false} DistinctElementsCount<T>(s: seq<T>)
    requires NoDuplicates(s)
    ensures |set x | x in s| == |s|
  {
    if s != [] {
      DistinctElementsCount(s[1..]);
      assert (set x | x in s) == (set x | x in s[1..]) + {s[0]};
      assert s[0] !in s[1..];
    }
  }

  /**
    The twelve codes are the contiguous range 0..11 (code i is the i-th
    declared), so there is no gap and no code is shared by two socket types.
   */
  lemma SocketTypeCodesContiguous()
    ensures |SocketTypeCodes| == 12
    ensures forall i :: 0 <= i < |SocketTypeCodes| ==> SocketTypeCodes[i] == i
    ensures |set t | t in SocketTypeCodes| == 12
    ensures ZmqInvalid !in SocketTypeCodes
  {
    DistinctElementsCount(SocketTypeCodes);
  }

  /** The docstring names twelve distinct keywords, one per code. */
  lemma NewSocketKeywordsDistinct()
    ensures NoDuplicates(NewSocketKeywords)
    ensures |set k | k in NewSocketKeywords| == |SocketTypeCodes|
  {
    DistinctElementsCount(NewSocketKeywords);
  }

  /** The docstring lists the keywords in code order. */
  lemma NewSocketKeywordsInCodeOrder(t: int)
    requires SocketTypeValid(t)
    ensures NewSocketKeywords[t] == SocketTypeToElisp(t)
  {
  }

  /** Translating one of the twelve keywords to a code and back gives the keyword. */
  lemma KeywordRoundTrip(kw: Keyword)
    requires kw in NewSocketKeywords
    ensures SocketTypeValid(SocketTypeToC(kw))
    ensures SocketTypeToElisp(SocketTypeToC(kw)) == kw
  {
  }

  /** Distinct valid codes have distinct keywords. */
  lemma SocketTypeToElispInjective(a: int, b: int)
    requires SocketTypeValid(a) && SocketTypeValid(b)
    ensures SocketTypeToElisp(a) == SocketTypeToElisp(b) <==> a == b
  {
  }

  /** A keyword names a socket type exactly when it is one the docstring lists. */
  lemma AcceptedKeywordsAreDocumented(kw: Keyword)
    ensures SocketTypeValid(SocketTypeToC(kw)) <==> kw in NewSocketKeywords
  {
  }

  /**
    The keywords produced from the valid codes are exactly the documented
    keywords: translating codes to keywords is onto the docstring's set.
   */
  lemma SocketTypeToElispOnto()
    ensures (set t | ZmqPair <= t <= ZmqStream :: SocketTypeToElisp(t))
         == (set k | k in NewSocketKeywords)
  {
    forall k | k in NewSocketKeywords
      ensures k in (set t | ZmqPair <= t <= ZmqStream :: SocketTypeToElisp(t))
    {
      KeywordRoundTrip(k);
    }
  }

  /** The default branch's keyword is not accepted back: it maps to ZmqInvalid. */
  lemma UnknownKeywordIsInvalid()
    ensures SocketTypeToC(UnknownSocketTypeKeyword) == ZmqInvalid
  {
  }
}
