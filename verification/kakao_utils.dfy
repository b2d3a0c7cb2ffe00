/** `camel_to_snake` (kakao/utils.py): the bridge between the camelCase wire field names
    and the snake_case attribute names of the response objects. */
module KakaoUtils {
  import opened PyStrings
  import Lists

  /** Number of ASCII capitals in `s`. */
  function UpperCount(s: string): nat {
    if |s| == 0 then 0 else (if IsUpperAscii(s[0]) then 1 else 0) + UpperCount(s[1..])
  }

  predicate NoUpper(s: string) {
    forall i | 0 <= i < |s| :: !IsUpperAscii(s[i])
  }

  /** Every character lowered, each capital preceded by "_": the rewrite the pattern
      `(?<!^)(?=[A-Z])` performs away from the start of the string. */
  function SnakeTail(s: string): (r: string)
    ensures NoUpper(r)
  {
    if |s| == 0 then "" else SnakeChar(s[0]) + SnakeTail(s[1..])
  }

  /** One character of the rewrite: a capital becomes "_" and its lower case. */
  function SnakeChar(c: char): string {
    if IsUpperAscii(c) then "_" + [LowerChar(c)] else [LowerChar(c)]
  }

  /** `camel_to_snake(camel)`: "_" before every capital except one at index 0, then the
      whole string lowered. */
  function CamelToSnake(camel: string): (r: string)
    ensures NoUpper(r)
    ensures |camel| > 0 ==> |r| > 0 && r[0] == LowerChar(camel[0])
  {
    if |camel| == 0 then "" else [LowerChar(camel[0])] + SnakeTail(camel[1..])
  }

  lemma {:induction false} SnakeTailLength(s: string)
    ensures |SnakeTail(s)| == |s| + UpperCount(s)
  {
    if |s| > 0 {
      SnakeTailLength(s[1..]);
    }
  }

  /** The output grows by one "_" per capital after index 0. */
  lemma CamelToSnakeLength(camel: string)
    ensures |CamelToSnake(camel)| == if |camel| == 0 then 0 else |camel| + UpperCount(camel[1..])
  {
    if |camel| > 0 {
      SnakeTailLength(camel[1..]);
    }
  }

  lemma {:induction false} SnakeTailUnchanged(s: string)
    requires NoUpper(s)
    ensures SnakeTail(s) == s
  {
    if |s| > 0 {
      SnakeTailUnchanged(s[1..]);
    }
  }

  /** A string without capitals comes back unchanged. */
  lemma CamelToSnakeUnchanged(camel: string)
    requires NoUpper(camel)
    ensures CamelToSnake(camel) == camel
  {
    if |camel| > 0 {
      SnakeTailUnchanged(camel[1..]);
    }
  }

  /** A snake_case result is a fixed point. */
  lemma CamelToSnakeIdempotent(camel: string)
    ensures CamelToSnake(CamelToSnake(camel)) == CamelToSnake(camel)
  {
    CamelToSnakeUnchanged(CamelToSnake(camel));
  }

  /** The rewrite works character by character, so it distributes over concatenation. */
  lemma {:induction false} SnakeTailConcat(a: string, b: string)
    ensures SnakeTail(a + b) == SnakeTail(a) + SnakeTail(b)
    decreases |a|
  {
    if |a| == 0 {
      assert a + b == b;
    } else {
      SnakeTailConcat(a[1..], b);
      assert (a + b)[0] == a[0];
      assert (a + b)[1..] == a[1..] + b;
      Lists.PrependAssoc(SnakeChar(a[0]), SnakeTail(a[1..] + b), SnakeTail(a[1..]), SnakeTail(b));
    }
  }

  /** A capitalised word becomes "_" and the word in lower case. */
  lemma CapitalisedWord(c: char, w: string)
    requires IsUpperAscii(c) && NoUpper(w)
    ensures SnakeTail([c] + w) == "_" + [LowerChar(c)] + w
  {
    assert ([c] + w)[0] == c;
    assert ([c] + w)[1..] == w;
    SnakeTailUnchanged(w);
  }

  /** Two words, the second capitalised: "_" goes before the inner capital only. */
  lemma TwoWords(camel: string, first: string, c: char, rest: string)
    requires camel == first + [c] + rest
    requires |first| > 0 && NoUpper(first[1..]) && IsUpperAscii(c) && NoUpper(rest)
    ensures CamelToSnake(camel) == [LowerChar(first[0])] + first[1..] + "_" + [LowerChar(c)] + rest
  {
    var tail := first[1..];
    assert camel[0] == first[0];
    assert camel[1..] == tail + ([c] + rest);
    CapitalisedWord(c, rest);
    SnakeTailConcat(tail, [c] + rest);
    SnakeTailUnchanged(tail);
  }

  /** The four wire fields of the action table map to the attribute names the
      interaction objects define, and a leading capital gets no underscore. */
  lemma KnownFieldNames()
    ensures CamelToSnake("webLinkUrl") == "web_link_url"
    ensures CamelToSnake("messageText") == "message_text"
    ensures CamelToSnake("phoneNumber") == "phone_number"
    ensures CamelToSnake("blockId") == "block_id"
    ensures CamelToSnake("CamelCase") == "camel_case"
  {
    WebLinkUrlName();
    MessageTextName();
    PhoneNumberName();
    BlockIdName();
    LeadingCapitalName();
  }

  /** `TwoWords` with the lowered result spelled out. */
  lemma TwoWordsExample(camel: string, first: string, c: char, rest: string, out: string)
    requires camel == first + [c] + rest
    requires |first| > 0 && NoUpper(first[1..]) && IsUpperAscii(c) && NoUpper(rest)
    requires out == [LowerChar(first[0])] + first[1..] + "_" + [LowerChar(c)] + rest
    ensures CamelToSnake(camel) == out
  {
    TwoWords(camel, first, c, rest);
  }

  lemma MessageTextName()
    ensures CamelToSnake("messageText") == "message_text"
  {
    TwoWordsExample("messageText", "message", 'T', "ext", "message_text");
  }

  lemma PhoneNumberName()
    ensures CamelToSnake("phoneNumber") == "phone_number"
  {
    TwoWordsExample("phoneNumber", "phone", 'N', "umber", "phone_number");
  }

  lemma BlockIdName()
    ensures CamelToSnake("blockId") == "block_id"
  {
    TwoWordsExample("blockId", "block", 'I', "d", "block_id");
  }

  lemma LeadingCapitalName()
    ensures CamelToSnake("CamelCase") == "camel_case"
  {
    TwoWordsExample("CamelCase", "Camel", 'C', "ase", "camel_case");
  }

  /** Appending a capitalised word appends "_" and the word in lower case. */
  lemma AppendWord(camel: string, c: char, w: string)
    requires |camel| > 0 && IsUpperAscii(c) && NoUpper(w)
    ensures CamelToSnake(camel + [c] + w) == CamelToSnake(camel) + "_" + [LowerChar(c)] + w
  {
    var s := camel + [c] + w;
    assert s[0] == camel[0];
    assert s[1..] == camel[1..] + ([c] + w);
    SnakeTailConcat(camel[1..], [c] + w);
    CapitalisedWord(c, w);
  }

  lemma AppendWordExample(camel: string, c: char, w: string, whole: string, prefix: string, out: string)
    requires |camel| > 0 && IsUpperAscii(c) && NoUpper(w)
    requires whole == camel + [c] + w
    requires CamelToSnake(camel) == prefix
    requires out == prefix + "_" + [LowerChar(c)] + w
    ensures CamelToSnake(whole) == out
  {
    AppendWord(camel, c, w);
  }

  lemma WebLinkUrlName()
    ensures CamelToSnake("webLinkUrl") == "web_link_url"
  {
    TwoWordsExample("webLink", "web", 'L', "ink", "web_link");
    AppendWordExample("webLink", 'U', "rl", "webLinkUrl", "web_link", "web_link_url");
  }
}
