# RAG chat service core, modelled in Dafny

This project models the core of a small retrieval-augmented question-answering
service (a FastAPI application over LangChain and FAISS):

- **The word chunker** of `PDFProcessor` (`Chunking`). Extracted text is
  split on whitespace into words, and the words go into a running buffer. The
  buffer's size counts each word's length plus one separator. As soon as that
  size reaches the chunk size (1000), the buffer is emitted as one
  space-joined chunk and reset. A non-empty remainder becomes the last chunk.
  `SplitIntoChunks` is the loop itself, proved equal to the specification
  function `ChunkText`. The lemmas show that this is the unique greedy
  chunking of the words (`IsChunking`). They also show that splitting the
  chunks gives back the text's words, that no chunk is empty, that blank
  text gives no chunks, and the size bounds.
- **Python's `str.split()` and `" ".join`** (`Text`). Splitting on maximal
  runs of `str.isspace()` characters, and the round trip
  `Words(Join(ws)) == ws` for genuine words.
- **`RAGService`** (`Rag`). A class whose one mutable field, the vector
  store, starts absent and is replaced wholesale by each ingestion. Answering
  fails with "Vector store is not initialized" until a store exists. It
  otherwise calls the retrieval chain with an empty chat history, returns its
  answer or lets its failure through, and leaves the store unchanged.
- **API-key access control** (`Security`, `Middleware`). The key check of
  `SecurityService`, and the pass/reject decision of `SecurityMiddleware`:
  four exact public paths pass, and every other path needs the
  `blg-wr-api-key` header to equal a configured, non-empty secret; otherwise
  the middleware raises `HTTPException(401, "Invalid API key")`.

Embedding, FAISS indexing, retrieval and the chat model are opaque.
`FAISS.from_texts` is represented by the texts a store was built from,
because the embedding model is fixed for the life of the service. The
retrieval chain is a function value (`QaChain`) given to the constructor.
The secret that `os.getenv` reads is a field value supplied by the caller.

## Model

| member | source | states |
|---|---|---|
| `Text.IsSpace` | services/pdf_service.py:26 | definition with no contract: the characters `str.isspace()` accepts, which separate words in `text.split()`; its use is stated by `Text.Words`, `Text.WordsEmptyIffBlank` and `Text.WordsKeepCharacters` |
| `Text.Join` | services/pdf_service.py:36 | definition with no contract: `" ".join(current_chunk)`; its properties are `Text.WordsOfJoin` (split gives the words back) and `Chunking.JoinLength` (length is the accumulated size minus one) |
| `Text.Words` | services/pdf_service.py:26 | `text.split()` yields only words: each is non-empty and holds no whitespace character |
| `Text.WordsEmptyIffBlank` | services/pdf_service.py:26 | a string has no words exactly when it is empty or all whitespace |
| `Text.WordsKeepCharacters` | services/pdf_service.py:26 | the words of a string, concatenated, are exactly its non-whitespace characters in their original order |
| `Text.WordsOfJoin` | services/pdf_service.py:36 | joining words with single spaces and splitting again gives back the same words |
| `Chunking.Size` | services/pdf_service.py:29-38 | definition with no contract: `current_size`, the sum of `len(word) + 1` over the buffer; its properties are `Chunking.JoinLength`, `Chunking.StepKeepsInvariant` and `Chunking.GroupsAreChunking` |
| `Chunking.Step` | services/pdf_service.py:32-38 | definition with no contract: one loop iteration (append the word, add its size, emit and reset once the size reaches the chunk size); its property is `Chunking.StepKeepsInvariant` |
| `Chunking.Groups` | services/pdf_service.py:40-41 | definition with no contract: the emitted groups followed by the remainder when it is non-empty; its properties are `Chunking.GroupsAreChunking` and `Chunking.GroupsCharacterised` |
| `Chunking.ChunkText` | services/pdf_service.py:25-43 | definition with no contract: `_split_into_chunks` as a function, each group joined with single spaces; `Chunking.PdfProcessor.SplitIntoChunks` is proved equal to it, and its properties are `Chunking.ChunkTextRoundTrip`, `Chunking.ChunkTextKeepsCharacters`, `Chunking.ChunkTextShape` and `Chunking.ChunkTextEmptyIffBlank` |
| `Chunking.Fill` | services/pdf_service.py:27-38 | the loop state after any prefix of the words: the emitted groups followed by `current_chunk` are exactly the words processed; every emitted group is full (reached the chunk size, and only with its last word); the buffer left over is empty or below the chunk size |
| `Chunking.StepKeepsInvariant` | services/pdf_service.py:31-38 | one iteration (append, add `len(word) + 1`, emit and reset at the threshold) keeps that invariant and appends exactly the new word |
| `Chunking.GroupsAreChunking` | services/pdf_service.py:25-43 | the groups produced concatenate to the words, none is empty, none reaches the chunk size before its last word (overshoot of at most one word), every group but the last reaches the chunk size, and there are no more groups than words |
| `Chunking.ChunkingUnique` | services/pdf_service.py:31-41 | two groupings of the same words that both satisfy those greedy conditions are equal |
| `Chunking.GroupsCharacterised` | services/pdf_service.py:25-43 | a grouping satisfies the greedy conditions if and only if it is the one the loop produces |
| `Chunking.JoinLength` | services/pdf_service.py:33-36 | a non-empty group's joined chunk is one character shorter than its accumulated size |
| `Chunking.ChunkTextEmptyIffBlank` | services/pdf_service.py:26-43 | the chunk list is empty if and only if the text is empty or all whitespace |
| `Chunking.ChunkTextRoundTrip` | services/pdf_service.py:26-41 | splitting every chunk on whitespace and concatenating the results reproduces `text.split()` exactly |
| `Chunking.ChunkTextKeepsCharacters` | services/pdf_service.py:26-41 | splitting every chunk and concatenating all its words gives the text's non-whitespace characters in their original order: only whitespace is lost |
| `Chunking.ChunkTextShape` | services/pdf_service.py:33-41 | no chunk is the empty string, each chunk's length is its group's accumulated size minus one, and there are no more chunks than words |
| `Chunking.PdfProcessor.constructor` | services/pdf_service.py:6-7 | a new processor has chunk size 1000 |
| `Chunking.PdfProcessor.SplitIntoChunks` | services/pdf_service.py:25-43 | the imperative loop returns exactly the chunks of the greedy chunking of the text's words, at the processor's chunk size |
| `Rag.RagService.constructor` | services/rag_service.py:8-21 | a new service has no vector store |
| `Rag.RagService.VectorizeAndStore` | services/rag_service.py:23-29 | the store becomes one built from exactly the given chunks, replacing rather than merging with any earlier store, and the call returns true |
| `Rag.RagService.GenerateAnswer` | services/rag_service.py:31-44 | without a store it fails with "Vector store is not initialized"; with one it returns what the chain gives for the question over that store with an empty chat history, an answer or the chain's failure; it changes no state |
| `Rag.AskBeforeIngest` | services/rag_service.py:31-33 | on a freshly constructed service, any question fails with "Vector store is not initialized" |
| `Rag.IngestTwiceThenAsk` | services/rag_service.py:23-44 | after two ingestions, both askings of a question reach the chain with the store built from the second batch of chunks only and with an empty chat history: nothing carries over from the first ingestion or the first question |
| `Security.SecurityService.VerifyApiKey` | services/security_service.py:10-13 | a missing or empty key is rejected; a non-empty key is accepted if and only if it equals the configured secret; with the secret unset or empty nothing is accepted |
| `Middleware.SecurityMiddleware.Dispatch` | middleware/security_middleware.py:10-23 | a request to one of the four public paths is forwarded unchecked; any other request is forwarded if and only if its `blg-wr-api-key` header is non-empty and equal to the configured secret, and is otherwise rejected by raising `HTTPException(401, "Invalid API key")` |
| `Middleware.MissingHeaderRejected` | middleware/security_middleware.py:16-20 | on a non-public path, a request without the key header is rejected by raising `HTTPException(401, "Invalid API key")` |
| `Middleware.NearPublicPathsNeedKey` | middleware/security_middleware.py:8-12 | membership is exact: "/hello" and "/docs/" are not public and are rejected without a key |

## Left out

- `PDFProcessor.process_pdf`: reading the upload and extracting page text with PyPDF2 is foreign I/O. Its caller in `app.py` also passes it two arguments while it accepts one, so that route fails before any chunking. Neither is modelled.
- Chunks carry no provenance marker (source name, page number). The code neither adds one when concatenating the pages nor inside `_split_into_chunks`, and the model follows the code.
- `Text.Words`: `str.isspace()` is modelled by the fixed list of characters Python treats as whitespace. The Unicode database behind it is not modelled.
- `Rag.RagService.VectorizeAndStore`: it does not model a failure inside `FAISS.from_texts`, such as an embedding-provider error or FAISS refusing an empty chunk list. Such a failure raises before the assignment, so the store would stay as it was. In the model, the call always succeeds.
- `Rag.RagService.GenerateAnswer`: the guard `not self.vector_store` is modelled as "no store built yet". A built FAISS store is taken to be truthy.
- `Rag.RagService.GenerateAnswer`: the chain is a function of (store, question, history). It may fail, but it always gives the same result for the same arguments. The chat model samples at temperature 0.7, so the same question asked twice can get different answers; that sampling is not modelled.
- Embeddings, similarity search, top-k retrieval, prompt construction and the chat model (`OpenAIEmbeddings`, `FAISS`, `ConversationalRetrievalChain`, `ChatOpenAI`): external libraries and network calls, kept opaque as `VectorStore` and `QaChain`. The answer text itself is therefore unconstrained.
- `services/chatgpt_service.py`: a thin wrapper around a chat-model call with exception rewrapping. It has no logic of its own.
- `app.py`: routing, CORS, `urllib.parse.unquote` of the question and mapping exceptions to HTTP 500. This is HTTP plumbing.
- Reading `API_SECRET_KEY` through `load_dotenv`/`os.getenv`: the secret is a parameter of `SecurityService`.
- Header lookup is an exact-key map lookup on lower-case names. The case-insensitive header matching of the HTTP framework is not modelled.
- `async`/`await` and any interleaving of concurrent ingestions and questions: the code has no synchronisation, and each method is modelled as one atomic step.
