/** Fitting message histories into a token budget (app/agent/context_builder.py). */
module Truncation {

  datatype Message = Message(role: string, content: string)

  function EstimateTokens(text: string): (tokens: nat)
    ensures 4 * (tokens - 1) <= |text| < 4 * tokens
  {
    |text| / 4 + 1
  }

  function Total(messages: seq<Message>): nat {
    if messages == [] then 0 else EstimateTokens(messages[0].content) + Total(messages[1..])
  }

  /** kept is the longest suffix of messages whose estimates fit the budget; the empty suffix
      is always allowed, even by a negative budget. */
  ghost predicate LongestFitting(messages: seq<Message>, budget: int, kept: seq<Message>) {
    |kept| <= |messages| &&
    kept == messages[|messages| - |kept|..] &&
    (kept == [] || Total(kept) <= budget) &&
    forall i | 0 <= i < |messages| - |kept| :: Total(messages[i..]) > budget
  }

  /** The total is the sum of the estimates, one for each message whatever its role. */
  lemma TotalOfOne(m: Message)
    ensures Total([m]) == |m.content| / 4 + 1 && Total([]) == 0
  {
    assert [m][1..] == [];
  }

  lemma {:induction false} TotalCat(a: seq<Message>, b: seq<Message>)
    ensures Total(a + b) == Total(a) + Total(b)
  {
    if a == [] {
      assert a + b == b;
    } else {
      assert (a + b)[1..] == a[1..] + b;
      TotalCat(a[1..], b);
    }
  }

  /** A longer suffix costs more. */
  lemma SuffixCosts(messages: seq<Message>, i: nat, j: nat)
    requires i <= j <= |messages|
    ensures Total(messages[i..]) >= Total(messages[j..]) + (j - i)
    decreases j - i
  {
    if i < j {
      assert messages[i..][1..] == messages[i + 1..];
      SuffixCosts(messages, i + 1, j);
    }
  }

  method CountTokens(messages: seq<Message>) returns (messageTokens: seq<nat>, totalTokens: nat)
    ensures |messageTokens| == |messages| && totalTokens == Total(messages)
    ensures forall j | 0 <= j < |messages| :: messageTokens[j] == EstimateTokens(messages[j].content)
  {
    messageTokens, totalTokens := [], 0;
    for k := 0 to |messages|
      invariant |messageTokens| == k
      invariant forall j | 0 <= j < k :: messageTokens[j] == EstimateTokens(messages[j].content)
      invariant totalTokens == Total(messages[..k])
    {
      var tokens := EstimateTokens(messages[k].content);
      assert messages[..k + 1] == messages[..k] + [messages[k]];
      TotalCat(messages[..k], [messages[k]]);
      messageTokens := messageTokens + [tokens];
      totalTokens := totalTokens + tokens;
    }
    assert messages[..|messages|] == messages;
  }

  lemma AllKept(messages: seq<Message>, budget: int)
    requires Total(messages) <= budget
    ensures LongestFitting(messages, budget, messages)
  {
    assert messages[0..] == messages;
  }

  /** Keeping the suffix from i on and one message more. */
  lemma OneMore(messages: seq<Message>, i: nat)
    requires i < |messages|
    ensures messages[i..] == [messages[i]] + messages[i + 1..]
    ensures Total(messages[i..]) == EstimateTokens(messages[i].content) + Total(messages[i + 1..])
  {
  }

  /** The suffix from i on is the longest that fits if i is 0 or the message before does not fit. */
  lemma StopsAt(messages: seq<Message>, budget: int, i: nat)
    requires i <= |messages| && (i == |messages| || Total(messages[i..]) <= budget)
    requires i > 0 ==> Total(messages[i - 1..]) > budget
    ensures LongestFitting(messages, budget, messages[i..])
  {
    forall j | 0 <= j < i
      ensures Total(messages[j..]) > budget
    {
      SuffixCosts(messages, j, i - 1);
    }
  }

  /** The messages that are kept: all when they all fit, otherwise the most recent ones, taken
      from the end until one does not fit. */
  method TruncateMessages(messages: seq<Message>, maxTokens: int) returns (kept: seq<Message>)
    ensures LongestFitting(messages, maxTokens, kept)
  {
    if messages == [] {
      return [];
    }
    hide LongestFitting, Total;
    var messageTokens, totalTokens := CountTokens(messages);
    if totalTokens <= maxTokens {
      AllKept(messages, maxTokens);
      return messages;
    }
    kept := [];
    var remaining := maxTokens;
    var i := |messages|;
    TotalOfNone();
    while i > 0
      invariant 0 <= i <= |messages|
      invariant kept == messages[i..]
      invariant remaining == maxTokens - Total(kept)
      invariant i == |messages| || remaining >= 0
    {
      OneMore(messages, i - 1);
      var tokens := messageTokens[i - 1];
      if tokens <= remaining {
        kept := [messages[i - 1]] + kept;
        remaining := remaining - tokens;
        i := i - 1;
      } else {
        break;
      }
    }
    StopsAt(messages, maxTokens, i);
  }

  lemma TotalOfNone()
    ensures Total([]) == 0
  {
  }

  /** The budget fixes what is kept: nothing for a budget of zero or less, everything exactly
      when everything fits (so the early return gives what the loop would have given). */
  lemma KeptIsDetermined(messages: seq<Message>, budget: int, kept: seq<Message>, other: seq<Message>)
    requires LongestFitting(messages, budget, kept) && LongestFitting(messages, budget, other)
    ensures kept == other
    ensures budget <= 0 ==> kept == []
    ensures kept == messages <==> messages == [] || Total(messages) <= budget
  {
    var k, o := |messages| - |kept|, |messages| - |other|;
    assert messages[k..] == kept && messages[o..] == other;
    assert messages[0..] == messages;
    SuffixCosts(messages, k, |messages|);
  }

  /** A larger budget never drops a message that a smaller one keeps, and truncating again
      with the same budget changes nothing. */
  lemma MoreBudgetKeepsMore(messages: seq<Message>, small: int, large: int, few: seq<Message>, many: seq<Message>)
    requires small <= large
    requires LongestFitting(messages, small, few) && LongestFitting(messages, large, many)
    ensures |few| <= |many| && few == many[|many| - |few|..]
    ensures LongestFitting(many, small, few)
    ensures LongestFitting(few, small, few)
  {
    hide Total;
    var f, m := |messages| - |few|, |messages| - |many|;
    assert messages[f..] == few && messages[m..] == many;
    assert |few| <= |many|;
    SuffixOfSuffix(messages, m, f - m);
    forall i | 0 <= i < |many| - |few| ensures Total(many[i..]) > small {
      SuffixOfSuffix(messages, m, i);
    }
    assert few == few[0..];
  }

  lemma SuffixOfSuffix(messages: seq<Message>, m: nat, i: nat)
    requires m + i <= |messages|
    ensures messages[m..][i..] == messages[m + i..]
  {
  }

  // ---- the whole context --------------------------------------------------------------

  /** The part of a context that is never cut: the system prompt, then the thread header and
      the prompt fingerprint when there are any. */
  function SystemMessages(prompts: seq<string>): (r: seq<Message>)
    ensures |r| == |prompts| && forall i | 0 <= i < |r| :: r[i] == Message("system", prompts[i])
  {
    if prompts == [] then [] else [Message("system", prompts[0])] + SystemMessages(prompts[1..])
  }

  lemma {:induction false} SystemMessagesCat(prompts: seq<string>, prompt: string)
    ensures SystemMessages(prompts + [prompt]) == SystemMessages(prompts) + [Message("system", prompt)]
  {
    if prompts == [] {
      assert prompts + [prompt] == [prompt];
    } else {
      assert (prompts + [prompt])[1..] == prompts[1..] + [prompt];
      SystemMessagesCat(prompts[1..], prompt);
    }
  }

  /** What is left of two histories in one context. */
  ghost predicate InContext(prompts: seq<Message>, available: int, threadMessages: seq<Message>,
                            recentMessages: seq<Message>, thread: seq<Message>, recent: seq<Message>)
  {
    var budget := available - Total(prompts);
    LongestFitting(threadMessages, budget, thread) && LongestFitting(recentMessages, budget, recent)
  }

  method AddPrompts(prompts: seq<string>) returns (messages: seq<Message>, estimated: nat)
    ensures messages == SystemMessages(prompts) && estimated == Total(messages)
  {
    messages, estimated := [], 0;
    for k := 0 to |prompts|
      invariant messages == SystemMessages(prompts[..k])
      invariant estimated == Total(messages)
    {
      assert prompts[..k + 1] == prompts[..k] + [prompts[k]];
      SystemMessagesCat(prompts[..k], prompts[k]);
      TotalCat(messages, [Message("system", prompts[k])]);
      messages := messages + [Message("system", prompts[k])];
      estimated := estimated + EstimateTokens(prompts[k]);
    }
    assert prompts[..|prompts|] == prompts;
  }

  lemma NothingKept(budget: int)
    ensures LongestFitting([], budget, [])
  {
  }

  /** Both histories are cut with the budget that the prompts leave: the estimate is not
      advanced after the thread history has been added. */
  method Build(prompts: seq<string>, threadMessages: seq<Message>, recentMessages: seq<Message>, available: int)
    returns (messages: seq<Message>)
    ensures exists thread, recent ::
              && InContext(SystemMessages(prompts), available, threadMessages, recentMessages, thread, recent)
              && messages == SystemMessages(prompts) + thread + recent
  {
    hide Total, LongestFitting, SystemMessages;
    var estimated;
    messages, estimated := AddPrompts(prompts);
    NothingKept(available - estimated);
    ghost var thread: seq<Message>, recent: seq<Message> := [], [];
    if threadMessages != [] {
      var truncated := TruncateMessages(threadMessages, available - estimated);
      thread := truncated;
      messages := messages + truncated;
    }
    if recentMessages != [] {
      var truncated := TruncateMessages(recentMessages, available - estimated);
      recent := truncated;
      messages := messages + truncated;
    }
    assert messages == SystemMessages(prompts) + thread + recent;
    assert InContext(SystemMessages(prompts), available, threadMessages, recentMessages, thread, recent);
  }

  function Max(a: int, b: int): int { if a > b then a else b }

  /** Either history alone keeps the context within the available tokens (or at the size of
      the prompts, which are never cut); both together stay within that plus one more budget. */
  lemma ContextBounds(prompts: seq<Message>, threadMessages: seq<Message>, recentMessages: seq<Message>,
                      available: int, thread: seq<Message>, recent: seq<Message>)
    requires InContext(prompts, available, threadMessages, recentMessages, thread, recent)
    ensures Total(prompts + thread) <= Max(Total(prompts), available)
    ensures Total(prompts + recent) <= Max(Total(prompts), available)
    ensures Total(prompts + thread + recent)
         <= Max(Total(prompts), available) + Max(0, available - Total(prompts))
  {
    KeptFits(threadMessages, available - Total(prompts), thread);
    KeptFits(recentMessages, available - Total(prompts), recent);
    hide Total, InContext, LongestFitting;
    TotalCat(prompts, thread);
    TotalCat(prompts, recent);
    TotalCat(prompts + thread, recent);
  }

  lemma KeptFits(messages: seq<Message>, budget: int, kept: seq<Message>)
    requires LongestFitting(messages, budget, kept)
    ensures Total(kept) <= Max(0, budget)
  {
  }

  /** The context is certain to fit for any two histories exactly when the prompts leave no
      budget at all; for every positive budget two histories overrun it by the whole budget. */
  lemma BothHistoriesFitIff(prompts: seq<Message>, available: int)
    ensures (forall threadMessages, recentMessages, thread, recent
             | InContext(prompts, available, threadMessages, recentMessages, thread, recent)
             :: Total(prompts + thread + recent) <= Max(Total(prompts), available))
       <==> available <= Total(prompts)
  {
    if available <= Total(prompts) {
      forall threadMessages, recentMessages, thread, recent
        | InContext(prompts, available, threadMessages, recentMessages, thread, recent)
        ensures Total(prompts + thread + recent) <= Max(Total(prompts), available) {
        ContextBounds(prompts, threadMessages, recentMessages, available, thread, recent);
      }
    } else {
      var h := Overrun(prompts, available);
      assert InContext(prompts, available, h, h, h, h);
    }
  }

  /** One message that uses up a whole budget, sent as both histories. */
  lemma Overrun(prompts: seq<Message>, available: int) returns (history: seq<Message>)
    requires available > Total(prompts)
    ensures LongestFitting(history, available - Total(prompts), history)
    ensures Total(prompts + history + history) == available + (available - Total(prompts))
  {
    var budget := available - Total(prompts);
    var text := seq(4 * (budget - 1), i => 'a');
    history := [Message("user", text)];
    assert EstimateTokens(text) == budget;
    assert history[0..] == history;
    TotalCat(prompts, history);
    TotalCat(prompts + history, history);
  }
}
