/** The topic-selection dialog shown when a session ends: the checked
    topics, the list of custom topics being typed, and the per-index input
    errors, with the dialog's handlers. */
module TopicSelection {
  import opened Strings
  import opened Wrappers

  const EmptyTopicMessage := "Topic cannot be empty"

  /** A custom topic that is rejected: nothing but white space. */
  predicate Blank(topic: string) {
    AllWhitespace(topic)
  }

  /** The `forEach` of `handleOk`: an error for each index whose topic trims
      to the empty string. */
  method ValidateCustomTopics(topics: seq<string>) returns (errors: map<int, string>)
    ensures forall i :: i in errors <==> 0 <= i < |topics| && Blank(topics[i])
    ensures forall i :: i in errors ==> errors[i] == EmptyTopicMessage
    ensures errors == map[] <==> forall i :: 0 <= i < |topics| ==> !Blank(topics[i])
  {
    errors := map[];
    var index := 0;
    while index < |topics|
      invariant 0 <= index <= |topics|
      invariant forall i :: i in errors <==> 0 <= i < index && Blank(topics[i])
      invariant forall i :: i in errors ==> errors[i] == EmptyTopicMessage
      invariant errors == map[] <==> forall i :: 0 <= i < index ==> !Blank(topics[i])
    {
      TrimEmptyIffBlank(topics[index]);
      if Trim(topics[index]) == "" {
        errors := errors[index := EmptyTopicMessage];
      }
      index := index + 1;
    }
  }

  /** `customTopics.filter(topic => topic.trim() !== '')`. */
  function NonBlankTopics(topics: seq<string>): (r: seq<string>)
    ensures |r| <= |topics|
    ensures forall t :: t in r <==> t in topics && !Blank(t)
    decreases topics
  {
    if topics == [] then []
    else
      TrimEmptyIffBlank(topics[0]);
      var rest := NonBlankTopics(topics[1..]);
      assert forall t :: t in topics <==> t == topics[0] || t in topics[1..];
      if Trim(topics[0]) != "" then [topics[0]] + rest else rest
  }

  /** Once validation has passed the filter removes nothing. */
  lemma {:induction false} NonBlankTopicsKeepsAll(topics: seq<string>)
    requires forall i :: 0 <= i < |topics| ==> !Blank(topics[i])
    ensures NonBlankTopics(topics) == topics
    decreases topics
  {
    if topics != [] {
      TrimEmptyIffBlank(topics[0]);
      NonBlankTopicsKeepsAll(topics[1..]);
      assert topics == [topics[0]] + topics[1..];
    }
  }

  /** The sequence with position `index` left out (`filter((_, i) => i !== index)`). */
  function RemoveAt(s: seq<string>, index: int): (r: seq<string>)
    ensures 0 <= index < |s| ==> |r| == |s| - 1
    ensures 0 <= index < |s| ==> forall i :: 0 <= i < |r| ==> r[i] == if i < index then s[i] else s[i + 1]
    ensures !(0 <= index < |s|) ==> r == s
  {
    if 0 <= index < |s| then s[..index] + s[index + 1..] else s
  }

  class TopicSelectionModal {
    var selectedTopics: seq<string>
    var customTopics: seq<string>
    var inputErrors: map<int, string>

    constructor ()
      ensures selectedTopics == [] && customTopics == [] && inputErrors == map[]
    {
      selectedTopics := [];
      customTopics := [];
      inputErrors := map[];
    }

    /** The checked topics are replaced wholesale. */
    method HandleChange(checkedValues: seq<string>)
      modifies this
      ensures selectedTopics == checkedValues
      ensures customTopics == old(customTopics) && inputErrors == old(inputErrors)
    {
      selectedTopics := checkedValues;
    }

    /** Typing into one custom topic replaces it and clears its error. */
    method HandleCustomTopicChange(index: int, value: string)
      requires 0 <= index < |customTopics|
      modifies this
      ensures customTopics == old(customTopics)[index := value]
      ensures old(index in inputErrors && inputErrors[index] != "") ==>
        inputErrors == old(inputErrors) - {index}
      ensures !old(index in inputErrors && inputErrors[index] != "") ==>
        inputErrors == old(inputErrors)
      ensures selectedTopics == old(selectedTopics)
    {
      customTopics := customTopics[index := value];
      if index in inputErrors && inputErrors[index] != "" {
        inputErrors := inputErrors - {index};
      }
    }

    /** A new custom topic starts out empty at the end of the list. */
    method AddCustomTopic()
      modifies this
      ensures customTopics == old(customTopics) + [""]
      ensures selectedTopics == old(selectedTopics) && inputErrors == old(inputErrors)
    {
      customTopics := customTopics + [""];
    }

    /** Removing a custom topic drops that position and the error stored
        under the same index; later errors keep their old indices. */
    method RemoveCustomTopic(index: int)
      modifies this
      ensures customTopics == RemoveAt(old(customTopics), index)
      ensures inputErrors == old(inputErrors) - {index}
      ensures selectedTopics == old(selectedTopics)
    {
      customTopics := RemoveAt(customTopics, index);
      inputErrors := inputErrors - {index};
    }

    /** Either records an error for every blank custom topic and submits
        nothing, or submits the checked topics followed by every custom
        topic, in order. */
    method HandleOk() returns (submitted: Option<seq<string>>)
      modifies this
      ensures selectedTopics == old(selectedTopics) && customTopics == old(customTopics)
      ensures (exists i :: 0 <= i < |customTopics| && Blank(customTopics[i])) ==>
        submitted == None &&
        (forall i :: i in inputErrors <==> 0 <= i < |customTopics| && Blank(customTopics[i])) &&
        (forall i :: i in inputErrors ==> inputErrors[i] == EmptyTopicMessage)
      ensures (forall i :: 0 <= i < |customTopics| ==> !Blank(customTopics[i])) ==>
        submitted == Some(selectedTopics + customTopics) && inputErrors == old(inputErrors)
    {
      var newErrors := ValidateCustomTopics(customTopics);
      if newErrors != map[] {
        inputErrors := newErrors;
        submitted := None;
        return;
      }
      var validCustomTopics := NonBlankTopics(customTopics);
      NonBlankTopicsKeepsAll(customTopics);
      submitted := Some(selectedTopics + validCustomTopics);
    }
  }
}
