/** The fixed table of selectable models and their token limits. */
module ModelCatalog {

  type ModelId = string

  datatype ModelInfo = ModelInfo(name: string, tokens: nat, developer: string, provider: string)

  /** The keys of the table in declaration order: the options of the model selector. */
  const ModelOrder: seq<ModelId> :=
    ["gemma-7b-it", "llama2-70b-4096", "llama3-70b-8192", "llama3-8b-8192", "mixtral-8x7b-32768"]

  /** The option the selector shows first. */
  const DefaultIndex: nat := 4

  const Models: map<ModelId, ModelInfo> := map[
    "gemma-7b-it" := ModelInfo("Gemma-7b-it", 8192, "Google", "groq"),
    "llama2-70b-4096" := ModelInfo("LLaMA2-70b-chat", 4096, "Meta", "groq"),
    "llama3-70b-8192" := ModelInfo("LLaMA3-70b-8192", 8192, "Meta", "groq"),
    "llama3-8b-8192" := ModelInfo("LLaMA3-8b-8192", 8192, "Meta", "groq"),
    "mixtral-8x7b-32768" := ModelInfo("Mixtral-8x7b-Instruct-v0.1", 32768, "Mistral", "groq")
  ]

  /** The token limit used for requests to a model of the table. */
  function MaxTokens(id: ModelId): (t: nat)
    requires id in Models
    ensures t == Models[id].tokens
    ensures t in {4096, 8192, 32768}
  {
    Models[id].tokens
  }

  /**
   * The selector offers exactly the five keys of the table, each once; its
   * default is the Mixtral model, and every model is served by the "groq" provider.
   */
  lemma CatalogShape()
    ensures |ModelOrder| == 5 && |Models| == 5
    ensures forall i, j :: 0 <= i < j < |ModelOrder| ==> ModelOrder[i] != ModelOrder[j]
    ensures forall id :: id in Models <==> id in ModelOrder
    ensures DefaultIndex < |ModelOrder| && ModelOrder[DefaultIndex] == "mixtral-8x7b-32768"
    ensures forall id :: id in Models ==> Models[id].provider == "groq"
  {
  }
}
