/**
 * `RAGService` (services/rag_service.py): one mutable vector store that each
 * ingestion replaces wholesale, and a question-answering call that fails
 * until a store exists. Embedding, FAISS indexing, retrieval and the chat
 * model are opaque: the store is identified by the texts it was built from,
 * and the retrieval chain is a function injected at construction.
 */
module Rag {
  import opened Wrappers

  /** `FAISS.from_texts(texts, embeddings)`: with the embedding model fixed, the texts determine the store. */
  datatype VectorStore = FromTexts(texts: seq<string>)

  /** One earlier exchange of a conversation, as the retrieval chain's `chat_history` holds it. */
  datatype Turn = Turn(question: string, answer: string)

  /**
   * The conversational retrieval chain over the chat model: given the store it
   * retrieves from, the question and the chat history, either the answer text
   * or the message of the exception the retriever or the chat model raised.
   */
  type QaChain = (VectorStore, string, seq<Turn>) -> Result<string, string>

  /** The message of the exception `generate_answer` raises without a store. */
  const NotInitialized: string := "Vector store is not initialized"

  class RagService {
    /** `self.vector_store`: `None` until the first ingestion. */
    var vectorStore: Option<VectorStore>
    /** The retrieval chain built over `self.chat_model`. */
    const qaChain: QaChain

    constructor(qaChain: QaChain)
      ensures vectorStore == None
      ensures this.qaChain == qaChain
    {
      vectorStore := None;
      this.qaChain := qaChain;
    }

    /**
     * `vectorize_and_store`: the store becomes one built from exactly these
     * chunks; whatever an earlier call stored is discarded, not merged.
     */
    method VectorizeAndStore(textChunks: seq<string>) returns (ok: bool)
      modifies this
      ensures vectorStore == Some(FromTexts(textChunks))
      ensures ok
    {
      vectorStore := Some(FromTexts(textChunks));
      ok := true;
    }

    /**
     * `generate_answer`: fails while no store exists; otherwise asks the
     * chain, retrieving from the current store, with an empty chat history,
     * and returns its answer or lets its exception through.
     * The store is left as it was (the method modifies nothing).
     */
    method GenerateAnswer(question: string) returns (r: Result<string, string>)
      ensures vectorStore.None? ==> r == Failure(NotInitialized)
      ensures vectorStore.Some? ==> r == qaChain(vectorStore.value, question, [])
    {
      if vectorStore.None? {
        return Failure(NotInitialized);
      }
      r := qaChain(vectorStore.value, question, []);
    }
  }

  /** A question asked of a fresh service, before any ingestion, fails. */
  method AskBeforeIngest(qaChain: QaChain, question: string) returns (r: Result<string, string>)
    ensures r == Failure(NotInitialized)
  {
    var service := new RagService(qaChain);
    r := service.GenerateAnswer(question);
  }

  /**
   * Two ingestions then the same question twice: both questions reach the
   * chain with the store built from the second batch of chunks alone and
   * with an empty chat history, so nothing carries over from the first
   * ingestion or from the first question.
   */
  method IngestTwiceThenAsk(qaChain: QaChain, first: seq<string>, second: seq<string>, question: string)
    returns (r: Result<string, string>, again: Result<string, string>)
    ensures r == qaChain(FromTexts(second), question, [])
    ensures again == qaChain(FromTexts(second), question, [])
  {
    var service := new RagService(qaChain);
    var ok := service.VectorizeAndStore(first);
    ok := service.VectorizeAndStore(second);
    r := service.GenerateAnswer(question);
    again := service.GenerateAnswer(question);
  }
}
